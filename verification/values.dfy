/**
 * The closed universe of concrete types a container can be instantiated with,
 * their values, and the compile-time facts (`operator==` present, arithmetic
 * type) that decide which behaviour table a type receives.
 */
module Values {

  const INT_MIN: int := -0x8000_0000
  const INT_MAX: int := 0x7fff_ffff

  predicate InInt(x: int) {
    INT_MIN <= x <= INT_MAX
  }

  /** A 32-bit two's-complement `int`. */
  type Int32 = x: int | INT_MIN <= x <= INT_MAX

  /** A C++ `char`: one byte, read as a signed 8-bit integer when promoted. */
  type CChar = c: char | c as int < 256 witness '\0'

  /** A `std::string`: a sequence of `char` bytes. */
  type ByteString = seq<CChar>

  /**
   * The concrete types. `TOpaque` stands for a user class with neither
   * `operator==` nor arithmetic (such as a plain struct).
   */
  datatype Ty = TInt | TChar | TBool | TStr | TOpaque

  /** True when `T == T` is well formed, so the table compares natively. */
  predicate HasEq(t: Ty) {
    t != TOpaque
  }

  /** `std::is_arithmetic<T>`: the table supports ordering and arithmetic. */
  predicate IsArith(t: Ty) {
    t == TInt || t == TChar || t == TBool
  }

  /** A value of one of the concrete types. */
  datatype Val =
    | VInt(i: Int32)
    | VChar(c: CChar)
    | VBool(b: bool)
    | VStr(s: ByteString)
    | VOpaque(tag: int)

  /** A value box: either empty (null helper) or holding one value. */
  datatype Object = Empty | Holds(val: Val)

  function TypeOf(v: Val): Ty {
    match v
    case VInt(_) => TInt
    case VChar(_) => TChar
    case VBool(_) => TBool
    case VStr(_) => TStr
    case VOpaque(_) => TOpaque
  }

  /** The value-initialised `T{}`. */
  function Default(t: Ty): (v: Val)
    ensures TypeOf(v) == t
    ensures IsArith(t) ==> Numeric(v) == 0
    ensures t == TStr ==> v.s == []
  {
    match t
    case TInt => VInt(0)
    case TChar => VChar('\0')
    case TBool => VBool(false)
    case TStr => VStr([])
    case TOpaque => VOpaque(0)
  }

  /** The signed value of a `char` byte (`char` is signed on x86, x86-64 and Windows ABIs). */
  function SignedChar(c: CChar): (n: int)
    ensures -128 <= n < 128
    ensures n % 256 == c as int
  {
    if c as int < 128 then c as int else c as int - 256
  }

  /** The `int` an arithmetic value becomes under integral promotion. */
  function Numeric(v: Val): (n: int)
    requires IsArith(TypeOf(v))
    ensures InInt(n)
    ensures v.VInt? ==> n == v.i
    ensures v.VChar? ==> -128 <= n < 128 && n % 256 == v.c as int
    ensures v.VBool? ==> (0 <= n <= 1 && (n == 1 <==> v.b))
  {
    match v
    case VInt(i) => i
    case VChar(c) => SignedChar(c)
    case VBool(b) => if b then 1 else 0
  }

  /** Promotion loses nothing: two values of one arithmetic type are equal iff their promotions are. */
  lemma NumericInjective(a: Val, b: Val)
    requires IsArith(TypeOf(a)) && TypeOf(a) == TypeOf(b)
    ensures Numeric(a) == Numeric(b) <==> a == b
  {
    if a.VChar? && Numeric(a) == Numeric(b) {
      assert a.c as int == SignedChar(a.c) % 256 == SignedChar(b.c) % 256 == b.c as int;
    }
  }

  function Abs(x: int): nat {
    if x < 0 then -x else x
  }

  /** A product of naturals with a positive factor is at least the other factor. */
  lemma MulAtLeast(a: nat, b: nat)
    requires a >= 1
    ensures a * b >= b
  {
    var k: nat := a - 1;
    assert a * b == k * b + b;
  }

  /** |d * y| == |d| * |y|, and it is at least |y| when d is non-zero. */
  lemma AbsMul(d: int, y: int)
    ensures Abs(d * y) == Abs(d) * Abs(y)
    ensures d * y == if (d < 0) == (y < 0) then Abs(d) * Abs(y) else -(Abs(d) * Abs(y))
    ensures d != 0 ==> Abs(d * y) >= Abs(y)
  {
    var ad, ay := Abs(d), Abs(y);
    var p := ad * ay;
    assert p >= 0;
    if d >= 0 && y >= 0 {
      assert d * y == p;
    } else if d < 0 && y < 0 {
      assert d * y == (-d) * (-y);
    } else if d < 0 {
      assert d * y == -((-d) * y);
    } else {
      assert d * y == -(d * (-y));
    }
    if d != 0 {
      MulAtLeast(ad, ay);
    }
  }

  /**
   * C++ integer division, which truncates toward zero (Dafny's `/` is
   * Euclidean). The remainder it leaves is smaller than the divisor and
   * carries the dividend's sign.
   */
  function TruncDiv(x: int, y: int): (q: int)
    requires y != 0
    ensures TruncRemainder(x, y, q)
  {
    var k: int := Abs(x) / Abs(y);
    TruncDivRemainder(x, y, k);
    if (x < 0) == (y < 0) then k else -k
  }

  /** Dividing the magnitudes and restoring the sign leaves a remainder of the dividend's sign. */
  lemma TruncDivRemainder(x: int, y: int, k: int)
    requires y != 0 && k == Abs(x) / Abs(y)
    ensures TruncRemainder(x, y, if (x < 0) == (y < 0) then k else -k)
  {
    var a: int, b: int := Abs(x), Abs(y);
    var r: int := a % b;
    assert a == k * b + r && 0 <= r < b;
    var q: int := if (x < 0) == (y < 0) then k else -k;
    assert q * y == (if x < 0 then -(k * b) else k * b) by {
      NegateFactor(k, b);
    }
    assert x - q * y == (if x < 0 then -r else r);
  }

  lemma MulMonotone(a: nat, c: nat, b: nat)
    requires a <= c
    ensures a * b <= c * b
  {
    var k: nat := c - a;
    assert c * b == a * b + k * b;
  }

  /** The quotient is no larger in magnitude than the dividend. */
  lemma TruncDivBound(x: int, y: int)
    requires y != 0
    ensures Abs(TruncDiv(x, y)) <= Abs(x)
  {
    var a, b := Abs(x), Abs(y);
    assert a == (a / b) * b + a % b;
    MulAtLeast(b, a / b);
    assert (a / b) * b == b * (a / b);
  }

  lemma NegateFactor(k: int, y: int)
    ensures (-k) * y == k * (-y)
    ensures (-k) * (-y) == k * y
  {
  }

  /** The truncating quotient is the only integer with those remainder properties. */
  lemma TruncDivUnique(x: int, y: int, q: int)
    requires y != 0
    requires TruncRemainder(x, y, q)
    ensures q == TruncDiv(x, y)
  {
    RemainderDeterminesQuotient(x, y, q, TruncDiv(x, y));
  }

  /** `q` leaves a remainder smaller than `y` that has the sign of `x` (or is zero). */
  predicate TruncRemainder(x: int, y: int, q: int) {
    && Abs(x - q * y) < Abs(y)
    && (x - q * y == 0 || (x - q * y < 0 <==> x < 0))
  }

  lemma RemainderDeterminesQuotient(x: int, y: int, q1: int, q2: int)
    requires y != 0
    requires TruncRemainder(x, y, q1) && TruncRemainder(x, y, q2)
    ensures q1 == q2
  {
    var p1, p2 := q1 * y, q2 * y;
    var r1, r2 := x - p1, x - p2;
    assert Abs(r1 - r2) < Abs(y);
    if q1 != q2 {
      SubtractProducts(q2, q1, y);
      AbsMul(q2 - q1, y);
      assert false;
    }
  }

  lemma SubtractProducts(a: int, b: int, y: int)
    ensures (a - b) * y == a * y - b * y
  {
  }

  /** The quotients the tests rely on, and one that differs from Euclidean division. */
  lemma TruncDivExamples()
    ensures TruncDiv(456, 123) == 3
    ensures TruncDiv(100, 200) == 0
    ensures TruncDiv(200, 100) == 2
    ensures TruncDiv(-7, 2) == -3 && -7 / 2 == -4
  {
  }
}
