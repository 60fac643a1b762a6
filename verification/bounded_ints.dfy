/** `bounded<b>` (bounded.hpp): a runtime integer annotated with a
    compile-time upper bound `b`, and one function per operator the class
    declares.

    The bound is part of the type and must be non-negative (and at least 1 for
    the class to be instantiated, see `BoundTable.Instantiable`); the runtime value
    is stored without any range check. The derived bounds are sound only for
    values with `0 <= value <= b`, which the library neither states nor checks,
    so each operator's contract states what it guarantees WHEN its
    operands satisfy that invariant. Operators whose result type is a
    `bounded` return a `BoundedInt`; the two whose result type is chosen by
    `if constexpr` return an `Outcome`; the ones that return the plain
    `value_type` return an `int`. Each function is the operator's body; whether
    the expression compiles at all (no `bounded<0>` operand or result) is
    decided by `BoundTable.Derive`. */
module BoundedInts {
  import opened CppInt
  import Constants

  /** `bounded<bound>` holding the runtime value `stored`. */
  datatype BoundedInt = BoundedInt(bound: nat, stored: int) {

    /** `value()` and the implicit conversion to `value_type`. */
    function Value(): int {
      stored
    }

    /** The range `0 <= value <= bound` the derived bounds rely on; nothing
        states or enforces it. */
    predicate InRange() {
      0 <= stored <= bound
    }
  }

  /** The result of an operator whose result type is either a `bounded` or the
      plain `value_type`. */
  datatype Outcome = Kept(x: BoundedInt) | Degraded(v: int) {

    function Value(): int {
      match this
      case Kept(x) => x.Value()
      case Degraded(v) => v
    }
  }

  /** `bounded<b>(v)`: every value is accepted and stored as given. */
  function Construct(b: nat, v: int): (x: BoundedInt)
    ensures x.bound == b && x.Value() == v
  {
    BoundedInt(b, v)
  }

  /** Construction does not check the range, and converting to `value_type`
      and constructing again reproduces the same `bounded`. */
  lemma ConstructionIsUnchecked(x: BoundedInt)
    ensures Construct(x.bound, x.Value()) == x
    ensures !Construct(x.bound, x.bound + 1).InRange()
    ensures !Construct(x.bound, -1).InRange()
  {
  }

  /** A constant converted to its value type and stored in a `bounded` comes
      back out unchanged; a `bool` constant is stored as 0 or 1. */
  lemma ConstantIntoBounded(b: nat, c: Constants.Constant)
    ensures Construct(b, Constants.Promote(c.ToValueType())).Value() == Constants.Promote(c.value)
    ensures c.value.IntValue? ==> Construct(b, Constants.Promote(c.ToValueType())).Value() == c.value.i
    ensures c.value == Constants.BoolValue(true) ==> Construct(b, Constants.Promote(c.ToValueType())).Value() == 1
  {
  }

  /** Unary `+` returns `*this`. */
  function UnaryPlus(x: BoundedInt): (r: BoundedInt)
    ensures r.bound == x.bound && r.Value() == x.Value()
    ensures x.InRange() ==> r.InRange()
  {
    x
  }

  /** Unary `-` keeps the type `bounded<b>`: the bound stays an upper bound
      for a non-negative operand, but the result may be negative. */
  function Negate(x: BoundedInt): (r: BoundedInt)
    ensures r.bound == x.bound
    ensures r.Value() + x.Value() == 0
    ensures 0 <= x.Value() ==> r.Value() <= r.bound
  {
    BoundedInt(x.bound, -x.stored)
  }

  /** Negation takes a value inside the range outside it. */
  lemma NegationLeavesRange()
    ensures BoundedInt(1, 1).InRange() && !Negate(BoundedInt(1, 1)).InRange()
  {
  }

  /** Prefix `++`: the value goes up by one and the bound is not re-derived. */
  function PreIncrement(x: BoundedInt): (r: BoundedInt)
    ensures r.bound == x.bound && r.Value() == x.Value() + 1
  {
    BoundedInt(x.bound, x.stored + 1)
  }

  /** Prefix `--`: the value goes down by one, same bound. */
  function PreDecrement(x: BoundedInt): (r: BoundedInt)
    ensures r.bound == x.bound && r.Value() == x.Value() - 1
  {
    BoundedInt(x.bound, x.stored - 1)
  }

  /** Postfix `++`: yields the old value and leaves the operand incremented. */
  function PostIncrement(x: BoundedInt): (r: (BoundedInt, BoundedInt))
    ensures r.0 == x
    ensures r.1.bound == x.bound && r.1.Value() == x.Value() + 1
  {
    (BoundedInt(x.bound, x.stored), BoundedInt(x.bound, x.stored + 1))
  }

  /** Postfix `--`: yields the old value and leaves the operand decremented. */
  function PostDecrement(x: BoundedInt): (r: (BoundedInt, BoundedInt))
    ensures r.0 == x
    ensures r.1.bound == x.bound && r.1.Value() == x.Value() - 1
  {
    (BoundedInt(x.bound, x.stored), BoundedInt(x.bound, x.stored - 1))
  }

  /** Increment and decrement undo each other, and the postfix forms leave the
      operand in the state the prefix forms produce. Neither keeps the range:
      `++` from the bound and `--` from zero leave it. */
  lemma IncrementDecrementLaws(x: BoundedInt)
    ensures PreDecrement(PreIncrement(x)) == x && PreIncrement(PreDecrement(x)) == x
    ensures PostIncrement(x).1 == PreIncrement(x) && PostDecrement(x).1 == PreDecrement(x)
    ensures x.InRange() && x.Value() == x.bound ==> !PreIncrement(x).InRange()
    ensures x.InRange() && x.Value() == 0 ==> !PreDecrement(x).InRange()
  {
  }

  /** The operators `BIN_OP_VALUE` declares against a raw `value_type`. */
  predicate IsValueOp(op: ArithOp) {
    op == Add || op == Sub || op == Mul || op == Rem || op == Or || op == Xor || op == Shl
  }

  /** `x OP k` for a `BIN_OP_VALUE` operator: the plain `value_ OP rhs`. */
  function ValueOp(op: ArithOp, x: BoundedInt, k: int): int
    requires IsValueOp(op) && Defined(op, x.Value(), k)
  {
    Arith(op, x.stored, k)
  }

  /** `x / k` keeps the bound `b`: truncating division never moves a
      non-negative value up, and a negative divisor makes it non-positive. */
  function DivValue(x: BoundedInt, k: int): (r: BoundedInt)
    requires k != 0
    ensures r.bound == x.bound
    ensures r.Value() == Arith(Div, x.Value(), k)
    ensures x.InRange() ==> r.Value() <= r.bound
    ensures x.InRange() && 0 < k ==> r.InRange()
  {
    TDivBounds(if x.stored < 0 then 0 else x.stored, k);
    BoundedInt(x.bound, TDiv(x.stored, k))
  }

  /** `x >> k` keeps the bound `b`: an arithmetic right shift keeps a
      non-negative value between zero and itself. */
  function ShiftRightValue(x: BoundedInt, k: int): (r: BoundedInt)
    requires k >= 0
    ensures r.bound == x.bound
    ensures r.Value() == Arith(Shr, x.Value(), k)
    ensures x.InRange() ==> r.InRange()
  {
    ShiftRightShrinks(if x.stored < 0 then 0 else x.stored, k);
    BoundedInt(x.bound, ShiftRight(x.stored, k))
  }

  /** Raw `k % x` has bound `b - 1`: the remainder is smaller than the divisor. */
  function RawRem(k: int, x: BoundedInt): (r: BoundedInt)
    requires x.bound >= 1 && x.Value() != 0
    ensures r.bound + 1 == x.bound
    ensures r.Value() == Arith(Rem, k, x.Value())
    ensures x.InRange() ==> r.Value() <= r.bound
    ensures x.InRange() && 0 <= k ==> r.InRange()
  {
    RemainderBelowDivisor(k, x.stored);
    BoundedInt(x.bound - 1, TRem(k, x.stored))
  }

  /** `x + y` has bound `bx + by`. */
  function AddBounded(x: BoundedInt, y: BoundedInt): (r: BoundedInt)
    ensures r.bound == x.bound + y.bound
    ensures r.Value() == x.Value() + y.Value()
    ensures x.InRange() && y.InRange() ==> r.InRange()
  {
    BoundedInt(x.bound + y.bound, x.stored + y.stored)
  }

  /** `x - y` keeps the bound `bx` exactly when `by <= bx`, and is a plain
      integer otherwise. */
  function SubBounded(x: BoundedInt, y: BoundedInt): (r: Outcome)
    ensures r.Kept? <==> y.bound <= x.bound
    ensures r.Kept? ==> r.x.bound == x.bound
    ensures r.Value() == x.Value() - y.Value()
    ensures r.Kept? && x.InRange() && y.InRange() ==> r.x.Value() <= r.x.bound
  {
    if y.bound <= x.bound then Kept(BoundedInt(x.bound, x.stored - y.stored))
    else Degraded(x.stored - y.stored)
  }

  /** `x * y` has bound `bx * by`. */
  function MulBounded(x: BoundedInt, y: BoundedInt): (r: BoundedInt)
    ensures r.bound == x.bound * y.bound
    ensures r.Value() == x.Value() * y.Value()
    ensures x.InRange() && y.InRange() ==> r.InRange()
  {
    ProductBound(x, y);
    BoundedInt(x.bound * y.bound, x.stored * y.stored)
  }

  /** `x % y` has bound `by - 1`. */
  function RemBounded(x: BoundedInt, y: BoundedInt): (r: BoundedInt)
    requires y.bound >= 1 && y.Value() != 0
    ensures r.bound + 1 == y.bound
    ensures r.Value() == Arith(Rem, x.Value(), y.Value())
    ensures x.InRange() && y.InRange() ==> r.InRange()
  {
    RemainderBelowDivisor(x.stored, y.stored);
    BoundedInt(y.bound - 1, TRem(x.stored, y.stored))
  }

  lemma ProductBound(x: BoundedInt, y: BoundedInt)
    ensures x.InRange() && y.InRange() ==> 0 <= x.stored * y.stored <= x.bound * y.bound
  {
    if x.InRange() && y.InRange() {
      MulNonneg(x.stored, y.stored);
      MulMonotone(x.stored, y.stored, x.bound, y.bound);
    }
  }

  /** `x + constant<c>` has bound `b + c`; its `requires` asks for `b + c >= 0`. */
  function AddConstant(x: BoundedInt, c: int): (r: BoundedInt)
    requires x.bound + c >= 0
    ensures r.bound == x.bound + c
    ensures r.Value() == x.Value() + c
    ensures x.InRange() ==> r.Value() <= r.bound
    ensures x.InRange() && 0 <= c ==> r.InRange()
  {
    BoundedInt(x.bound + c, x.stored + c)
  }

  /** `constant<c> + x` has bound `c + b`. */
  function ConstantAdd(c: int, x: BoundedInt): (r: BoundedInt)
    requires x.bound + c >= 0
    ensures r.bound == x.bound + c
    ensures r.Value() == c + x.Value()
    ensures x.InRange() ==> r.Value() <= r.bound
    ensures x.InRange() && 0 <= c ==> r.InRange()
  {
    BoundedInt(c + x.bound, c + x.stored)
  }

  /** `x - constant<c>` has bound `b - c` exactly when `0 <= c <= b`, and is a
      plain integer otherwise. */
  function SubConstant(x: BoundedInt, c: int): (r: Outcome)
    ensures r.Kept? <==> 0 <= c <= x.bound
    ensures r.Kept? ==> r.x.bound + c == x.bound
    ensures r.Value() == x.Value() - c
    ensures r.Kept? && x.InRange() ==> r.x.Value() <= r.x.bound
  {
    if 0 <= c && c <= x.bound then Kept(BoundedInt(x.bound - c, x.stored - c))
    else Degraded(x.stored - c)
  }

  /** `x * constant<c>` has bound `b * c`; its `requires` asks for `b * c >= 0`. */
  function MulConstant(x: BoundedInt, c: int): (r: BoundedInt)
    requires x.bound * c >= 0
    ensures r.bound == x.bound * c
    ensures r.Value() == x.Value() * c
    ensures x.InRange() ==> r.Value() <= r.bound
    ensures x.InRange() && 0 <= c ==> r.InRange()
  {
    ScaledBound(x, c);
    BoundedInt(x.bound * c, x.stored * c)
  }

  /** `constant<c> * x` has bound `c * b`. */
  function ConstantMul(c: int, x: BoundedInt): (r: BoundedInt)
    requires x.bound * c >= 0
    ensures r.bound == x.bound * c
    ensures r.Value() == c * x.Value()
    ensures x.InRange() ==> r.Value() <= r.bound
    ensures x.InRange() && 0 <= c ==> r.InRange()
  {
    ScaledBound(x, c);
    BoundedInt(c * x.bound, c * x.stored)
  }

  /** Scaling by `c` with `b * c >= 0` keeps the scaled value under the scaled bound. */
  lemma ScaledBound(x: BoundedInt, c: int)
    requires x.bound * c >= 0
    ensures x.InRange() ==> x.stored * c <= x.bound * c
    ensures x.InRange() && 0 <= c ==> 0 <= x.stored * c
  {
    if x.InRange() {
      if 0 <= c {
        MulNonneg(x.stored, c);
        MulMonotone(x.stored, c, x.bound, c);
      } else if x.bound > 0 {
        NegMul(x.bound, c);
        MulAtLeast(x.bound, -c);
      }
    }
  }

  /** `x % constant<c>` has bound `c - 1`; its `requires` asks for `c > 0`.
      A non-negative value lands in `[0, c - 1]` whatever its own bound. */
  function RemConstant(x: BoundedInt, c: int): (r: BoundedInt)
    requires c > 0
    ensures r.bound + 1 == c
    ensures r.Value() == Arith(Rem, x.Value(), c)
    ensures 0 <= x.Value() ==> r.InRange()
  {
    TRemBounds(x.stored, c);
    BoundedInt(c - 1, TRem(x.stored, c))
  }

  /** The remainder keeps the dividend's sign, so a negative value gives a
      negative result: `bounded<5>(-7) % constant<3>` holds -1. */
  lemma NegativeRemainder()
    ensures RemConstant(BoundedInt(5, -7), 3) == BoundedInt(2, -1)
    ensures !RemConstant(BoundedInt(5, -7), 3).InRange()
  {
  }

  /** `constant<c> % x` has bound `b - 1`; a constant below the divisor comes
      back unchanged. */
  function ConstantRem(c: int, x: BoundedInt): (r: BoundedInt)
    requires x.bound >= 1 && x.Value() != 0
    ensures r.bound + 1 == x.bound
    ensures r.Value() == Arith(Rem, c, x.Value())
    ensures x.InRange() ==> r.Value() <= r.bound
    ensures x.InRange() && 0 <= c ==> r.InRange()
    ensures 0 <= c < x.Value() ==> r.Value() == c
  {
    RemainderBelowDivisor(c, x.stored);
    SmallRemainder(c, x.stored);
    BoundedInt(x.bound - 1, TRem(c, x.stored))
  }

  /** `std::numeric_limits<bounded<b>>::max()`. */
  function NumericLimitsMax(b: nat): int {
    b
  }

  /** The reported maximum is the least upper bound of the values that satisfy
      the invariant: every one of them is at most `max()`, and `max()` itself
      is one of them. */
  lemma NumericLimitsMaxIsBound(x: BoundedInt)
    ensures x.InRange() ==> x.Value() <= NumericLimitsMax(x.bound)
    ensures BoundedInt(x.bound, NumericLimitsMax(x.bound)).InRange()
    ensures forall v :: BoundedInt(x.bound, v).InRange() ==> v <= NumericLimitsMax(x.bound)
  {
  }
}
