/**
 * The value box `typeless::Object`. The helper pointer and the value pointer
 * are modelled together as `Values.Object`: `Empty` is the null pair, and
 * `Holds(v)` a live value whose dynamic type is `TypeOf(v)`. Copying a box
 * allocates fresh storage in the source, which in a value model is simply the
 * same value again.
 */
module Objects {
  import opened Wrappers
  import opened Values
  import opened Behavior
  import Stringizer

  /** A `std::type_info` token: the held type, or `typeid(std::nullptr_t)` when empty. */
  datatype TypeId = NullptrType | TypeIdOf(t: Ty)

  /** `Object(const T&)`: box a copy of the value. */
  function Construct(v: Val): (o: Object)
    ensures !IsEmpty(o) && HasType(o, TypeOf(v)) && Get(o, TypeOf(v)) == v
  {
    Holds(v)
  }

  /** `empty()`: the value pointer is null, which is exactly when `type()` is `nullptr_t`. */
  predicate IsEmpty(o: Object)
    ensures IsEmpty(o) <==> Type(o) == NullptrType
  {
    o.Empty?
  }

  /** `type()`: the type of the held value, or `nullptr_t` for an empty box. */
  function Type(o: Object): (id: TypeId)
    ensures id.TypeIdOf? <==> o.Holds?
    ensures id.TypeIdOf? ==> TypeOf(o.val) == id.t
  {
    if o.Empty? then NullptrType else TypeIdOf(TypeOf(o.val))
  }

  /** `type_name()`: the name of `type()`, with "void" standing for `nullptr_t`. */
  function TypeName(o: Object, typeName: Ty -> string): (name: string)
    ensures Type(o) == NullptrType ==> name == "void"
    ensures Type(o).TypeIdOf? ==> name == typeName(Type(o).t)
  {
    if o.Empty? then "void" else typeName(TypeOf(o.val))
  }

  /** `has_type<T>()`: the box holds a value, and its type is `T`. */
  predicate HasType(o: Object, t: Ty)
    ensures HasType(o, t) <==> !IsEmpty(o) && TypeOf(o.val) == t
  {
    Type(o) == TypeIdOf(t)
  }

  /** `get<T>()`: the caller must already know the dynamic type is `T`. */
  function Get(o: Object, t: Ty): (v: Val)
    requires HasType(o, t)
    ensures TypeOf(v) == t
  {
    o.val
  }

  /** Boxing then reading gives the value back, under its own type. */
  lemma ConstructRoundTrip(v: Val)
    ensures !IsEmpty(Construct(v)) && HasType(Construct(v), TypeOf(v))
    ensures Get(Construct(v), TypeOf(v)) == v
  {
  }

  /**
   * `set(val)`: release the old value, rebind to the new type, box a copy.
   * `val` is taken to be independent of the box; a reference into the box's
   * own value would be read after it is released.
   */
  function Set(o: Object, v: Val): (r: Object)
    ensures HasType(r, TypeOf(v)) && Get(r, TypeOf(v)) == v
  {
    Holds(v)
  }

  /** `Object(const Object&)` and `clone()`: a deep copy. */
  function Copy(o: Object): (c: Object)
    ensures Type(c) == Type(o) && (IsEmpty(c) <==> IsEmpty(o))
    ensures !IsEmpty(o) ==> Get(c, TypeOf(o.val)) == Get(o, TypeOf(o.val))
  {
    o
  }

  /**
   * `operator=(const Object&)`. `aliased` says the two operands are the same
   * object, in which case nothing happens. Assigning an empty box to a
   * non-empty one would leave the released value pointer behind, so that case
   * is excluded.
   */
  function CopyAssign(dst: Object, src: Object, aliased: bool): (r: Object)
    requires aliased ==> dst == src
    requires aliased || src.Holds? || dst.Empty?
    ensures Type(r) == Type(src)
    ensures !IsEmpty(src) ==> Get(r, TypeOf(src.val)) == Get(src, TypeOf(src.val))
    ensures IsEmpty(r) <==> IsEmpty(src)
  {
    if aliased then dst
    else if src.Holds? then Copy(src)
    else Empty
  }

  /** `Object(Object&&)`: the new box takes over the value, the source becomes empty. */
  function MoveConstruct(src: Object): (r: (Object, Object))
    ensures r.0 == src && IsEmpty(r.1)
  {
    (src, Empty)
  }

  /**
   * `operator=(Object&&)`: release the destination's value, take over the
   * source's pointers, then null the source. On a self-move the value is
   * released and then both pointers are nulled, so the box ends empty.
   */
  function MoveAssign(dst: Object, src: Object, aliased: bool): (r: (Object, Object))
    requires aliased ==> dst == src
    ensures IsEmpty(r.1)
    ensures !aliased ==> r.0 == src
    ensures aliased ==> IsEmpty(r.0)
  {
    if aliased then (Empty, Empty) else (src, Empty)
  }

  /** `swap`, which is `std::swap`: a move-construction and two move-assignments. */
  function Swap(a: Object, b: Object): (r: (Object, Object))
    ensures r == (b, a)
  {
    var (tmp, a1) := MoveConstruct(a);
    var (a2, b1) := MoveAssign(a1, b, false);
    var (b2, _) := MoveAssign(b1, tmp, false);
    (a2, b2)
  }

  /** Copy-construction gives the same type and an equal value. */
  lemma CopyIsEqual(o: Object)
    requires !IsEmpty(o)
    ensures Type(Copy(o)) == Type(o)
    ensures Get(Copy(o), TypeOf(o.val)) == Get(o, TypeOf(o.val))
    ensures Eq(Copy(o), o) <==> HasEq(TypeOf(o.val))
  {
  }

  /** An empty box reports itself empty, typed `std::nullptr_t`, named "void" and printed "null"; a boxed value never does. */
  lemma EmptyBoxDescriptions(v: Val, typeName: Ty -> string)
    ensures IsEmpty(Empty) && Type(Empty) == NullptrType
    ensures TypeName(Empty, typeName) == "void" && ToString(Empty, typeName) == "null"
    ensures !IsEmpty(Construct(v)) && Type(Construct(v)) != NullptrType
  {
  }

  /** Swapping a string box, an `int` box and an empty box, as the swap test does. */
  lemma SwapExample()
    ensures var (s, i) := Swap(Holds(VStr("Hello World!")), Holds(VInt(123)));
      EqValue(s, VInt(123)) && EqValue(i, VStr("Hello World!"))
    ensures var (s, e) := Swap(Holds(VStr("Hello World!")), Empty);
      IsEmpty(s) && !IsEmpty(e) && EqValue(e, VStr("Hello World!"))
  {
  }

  /** `to_string()`: "null" when empty, else the stringizer's rendering. */
  function ToString(o: Object, typeName: Ty -> string): (s: string)
    ensures o.Empty? ==> s == "null"
    ensures o.Holds? && o.val.VStr? ==> s == o.val.s
    ensures o.Holds? && o.val.VChar? ==> s == [o.val.c]
    ensures o.Holds? && o.val.VInt? ==>
      |s| >= 1 && Stringizer.AllDigits(if s[0] == '-' then s[1..] else s) && Stringizer.ParseInt(s) == o.val.i
    ensures o.Holds? && (o.val.VBool? || o.val.VOpaque?) ==> s == typeName(TypeOf(o.val))
  {
    if o.Empty? then "null" else Stringizer.ToString(o.val, typeName)
  }

  /** `operator==(Object, Object)`: both boxes must hold a value. */
  function Eq(l: Object, r: Object): (eq: bool)
    requires l.Holds? && r.Holds?
    ensures eq <==> l == r && HasEq(TypeOf(l.val))
  {
    Type(l) == Type(r) && Equal(l.val, r.val)
  }

  /**
   * `operator!=(Object, Object)`: the template `!(obj == v)` with `T = Object`,
   * which picks the non-template `==` of two boxes.
   */
  function Ne(l: Object, r: Object): (ne: bool)
    requires l.Holds? && r.Holds?
    ensures ne <==> l != r || !HasEq(TypeOf(l.val))
  {
    !Eq(l, r)
  }

  /** `operator==(Object, const T&)`: the box holds a `T` equal to `v`. */
  function EqValue(o: Object, v: Val): (eq: bool)
    requires o.Holds? && HasEq(TypeOf(v))
    ensures eq <==> o == Holds(v)
  {
    HasType(o, TypeOf(v)) && Get(o, TypeOf(v)) == v
  }

  /** `operator!=(Object, const T&)`. */
  function NeValue(o: Object, v: Val): (ne: bool)
    requires o.Holds? && HasEq(TypeOf(v))
    ensures ne <==> o != Holds(v)
  {
    !EqValue(o, v)
  }

  /**
   * The operators that go through the helper without a null check. If both
   * boxes are empty their types agree and the null helper is dereferenced.
   */
  predicate Comparable(l: Object, r: Object) {
    l.Holds? || r.Holds?
  }

  /** `operator<`. */
  function Lt(l: Object, r: Object): (res: Result<bool, Error>)
    requires Comparable(l, r)
    ensures Type(l) != Type(r) ==> res == Ok(false)
    ensures Type(l) == Type(r) && !IsArith(TypeOf(l.val)) ==> res == Err(NonArithmetic(TypeOf(l.val)))
    ensures Type(l) == Type(r) && IsArith(TypeOf(l.val)) ==> res == Ok(Numeric(l.val) < Numeric(r.val))
  {
    if Type(l) != Type(r) then Ok(false) else Less(l.val, r.val)
  }

  /** `operator>`, written in the source as the negation of `less`. */
  function Gt(l: Object, r: Object): (res: Result<bool, Error>)
    requires Comparable(l, r)
    ensures Type(l) != Type(r) ==> res == Ok(false)
    ensures Type(l) == Type(r) && !IsArith(TypeOf(l.val)) ==> res == Err(NonArithmetic(TypeOf(l.val)))
    ensures Type(l) == Type(r) && IsArith(TypeOf(l.val)) ==> res == Ok(Numeric(l.val) >= Numeric(r.val))
  {
    if Type(l) != Type(r) then Ok(false)
    else
      var less :- Less(l.val, r.val);
      Ok(!less)
  }

  /** `operator>` as evidently intended: strictly greater, that is `less` with the operands swapped. */
  function GtStrict(l: Object, r: Object): (res: Result<bool, Error>)
    requires Comparable(l, r)
    ensures Type(l) != Type(r) ==> res == Ok(false)
    ensures Type(l) == Type(r) && !IsArith(TypeOf(l.val)) ==> res == Err(NonArithmetic(TypeOf(l.val)))
    ensures Type(l) == Type(r) && IsArith(TypeOf(l.val)) ==> res == Ok(Numeric(l.val) > Numeric(r.val))
  {
    if Type(l) != Type(r) then Ok(false) else Less(r.val, l.val)
  }

  /** `operator<=`: `less || equal`. */
  function Le(l: Object, r: Object): (res: Result<bool, Error>)
    requires Comparable(l, r)
    ensures Type(l) != Type(r) ==> res == Ok(false)
    ensures Type(l) == Type(r) && !IsArith(TypeOf(l.val)) ==> res == Err(NonArithmetic(TypeOf(l.val)))
    ensures Type(l) == Type(r) && IsArith(TypeOf(l.val)) ==> res == Ok(Numeric(l.val) <= Numeric(r.val))
  {
    if Type(l) != Type(r) then Ok(false)
    else
      var less :- Less(l.val, r.val);
      NumericInjective(l.val, r.val);
      Ok(less || Equal(l.val, r.val))
  }

  /** `operator>=`: `!less || equal`. */
  function Ge(l: Object, r: Object): (res: Result<bool, Error>)
    requires Comparable(l, r)
    ensures Type(l) != Type(r) ==> res == Ok(false)
    ensures Type(l) == Type(r) && !IsArith(TypeOf(l.val)) ==> res == Err(NonArithmetic(TypeOf(l.val)))
    ensures Type(l) == Type(r) && IsArith(TypeOf(l.val)) ==> res == Ok(Numeric(l.val) >= Numeric(r.val))
  {
    if Type(l) != Type(r) then Ok(false)
    else
      var less :- Less(l.val, r.val);
      NumericInjective(l.val, r.val);
      Ok(!less || Equal(l.val, r.val))
  }

  /** The native operation is defined whenever the helper is reached. */
  predicate ArithmeticDefined(op: ArithOp, l: Object, r: Object) {
    Comparable(l, r) && (Type(l) == Type(r) ==> ArithDefined(op, l.val, r.val))
  }

  /** `operator+`, `-`, `*`, `/`: an empty box on a type mismatch, else the helper's result. */
  function Apply(op: ArithOp, l: Object, r: Object): (res: Result<Object, Error>)
    requires ArithmeticDefined(op, l, r)
    ensures Type(l) != Type(r) ==> res == Ok(Empty)
    ensures Type(l) == Type(r) && !IsArith(TypeOf(l.val)) ==> res == Err(NonArithmetic(TypeOf(l.val)))
    ensures Type(l) == Type(r) && IsArith(TypeOf(l.val)) ==>
      res == Ok(Holds(VInt(Native(op, Numeric(l.val), Numeric(r.val)))))
  {
    if Type(l) != Type(r) then Ok(Empty) else Arith(op, l.val, r.val)
  }

  /** Boxes of different dynamic types never reach the helper: every ordering is false and every arithmetic result empty. */
  lemma MismatchIsSilent(l: Object, r: Object, op: ArithOp)
    requires Comparable(l, r) && Type(l) != Type(r)
    ensures Lt(l, r) == Gt(l, r) == Le(l, r) == Ge(l, r) == Ok(false)
    ensures Apply(op, l, r) == Ok(Empty)
    ensures l.Holds? && r.Holds? ==> !Eq(l, r)
  {
  }

  /** On two values of one non-arithmetic type all eight operators throw. */
  lemma NonArithmeticThrows(l: Object, r: Object, op: ArithOp)
    requires l.Holds? && r.Holds? && TypeOf(l.val) == TypeOf(r.val) && !IsArith(TypeOf(l.val))
    ensures var e := Err(NonArithmetic(TypeOf(l.val)));
      Lt(l, r) == e && Gt(l, r) == e && Le(l, r) == e && Ge(l, r) == e
    ensures Apply(op, l, r) == Err(NonArithmetic(TypeOf(l.val)))
  {
  }

  /** `>` is true on equal values and so is not asymmetric, unlike the intended strict order. */
  lemma GtTrueOnEqual(o: Object)
    requires o.Holds? && IsArith(TypeOf(o.val))
    ensures Gt(o, o) == Ok(true) && Lt(o, o) == Ok(false)
    ensures GtStrict(o, o) == Ok(false)
  {
  }

  /** The corrected `>` is `<` with its operands swapped, and agrees with `>=` except on equal values. */
  lemma GtStrictIsConverseLess(l: Object, r: Object)
    requires l.Holds? && r.Holds?
    ensures GtStrict(l, r) == Lt(r, l)
    ensures TypeOf(l.val) == TypeOf(r.val) && IsArith(TypeOf(l.val)) ==>
      (GtStrict(l, r) == Ok(true) <==> Gt(l, r) == Ok(true) && l != r)
  {
    if TypeOf(l.val) == TypeOf(r.val) && IsArith(TypeOf(l.val)) {
      NumericInjective(l.val, r.val);
    }
  }

  /** Adding then subtracting the same `int` box gives the first box back. */
  lemma SumThenDifference(l: Object, r: Object)
    requires l.Holds? && r.Holds? && TypeOf(l.val) == TInt == TypeOf(r.val)
    requires InInt(l.val.i + r.val.i)
    ensures var s := Apply(Sum, l, r);
      s.Ok? && ArithmeticDefined(Difference, s.value, r) && Apply(Difference, s.value, r) == Ok(l)
  {
  }

  /** Integer `/` on boxes truncates toward zero. */
  lemma QuotientTruncates(l: Object, r: Object)
    requires l.Holds? && r.Holds? && TypeOf(l.val) == TypeOf(r.val) && IsArith(TypeOf(l.val))
    requires ArithmeticDefined(Quotient, l, r)
    ensures Apply(Quotient, l, r).Ok?
    ensures TruncRemainder(Numeric(l.val), Numeric(r.val), Apply(Quotient, l, r).value.val.i)
  {
  }

  /** Arithmetic on `char` boxes yields an `int` box (integral promotion). */
  lemma CharArithmeticPromotes(op: ArithOp, a: CChar, b: CChar)
    requires op != Quotient || SignedChar(b) != 0
    ensures ArithmeticDefined(op, Holds(VChar(a)), Holds(VChar(b)))
    ensures HasType(Apply(op, Holds(VChar(a)), Holds(VChar(b))).value, TInt)
  {
    var x, y := SignedChar(a), SignedChar(b);
    assert -16384 <= x * y <= 16384 by {
      BoundedProduct(x, y);
    }
    if op == Quotient {
      TruncDivBound(x, y);
    }
  }

  lemma BoundedProduct(x: int, y: int)
    requires -128 <= x < 128 && -128 <= y < 128
    ensures -16384 <= x * y <= 16384
  {
    AbsMul(x, y);
    MagnitudesBounded(Abs(x), Abs(y));
  }

  lemma MagnitudesBounded(a: nat, b: nat)
    requires a <= 128 && b <= 128
    ensures a * b <= 16384
  {
    MulMonotone(a, 128, b);
    MulMonotone(b, 128, 128);
    assert 128 * b == b * 128;
  }

  /** The operator results the tests expect for `Object(123)` and `Object(456)`. */
  lemma ArithmeticExamples()
    ensures Apply(Sum, Holds(VInt(123)), Holds(VInt(456))) == Ok(Holds(VInt(579)))
    ensures Apply(Difference, Holds(VInt(123)), Holds(VInt(456))) == Ok(Holds(VInt(-333)))
    ensures Apply(Product, Holds(VInt(123)), Holds(VInt(456))) == Ok(Holds(VInt(56088)))
    ensures Apply(Quotient, Holds(VInt(456)), Holds(VInt(123))) == Ok(Holds(VInt(3)))
    ensures Lt(Holds(VInt(123)), Holds(VInt(456))) == Ok(true)
    ensures Le(Holds(VInt(123)), Holds(VInt(456))) == Ok(true)
    ensures Gt(Holds(VInt(456)), Holds(VInt(123))) == Ok(true)
    ensures Ge(Holds(VInt(456)), Holds(VInt(123))) == Ok(true)
    ensures !Eq(Holds(VInt(123)), Holds(VInt(456))) && Ne(Holds(VInt(123)), Holds(VInt(456)))
  {
    TruncDivExamples();
  }
}
