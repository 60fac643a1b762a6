/** The bound-propagation algebra of bounded.hpp as one table.

    `Derive` is what the compiler decides from the operand types alone: for an
    operator and two operand descriptors (a `bounded` with its bound, a
    `constant` with its value, or a raw `value_type`), the result is a
    `bounded` with a derived bound, a plain integer, or not well-formed.
    `Apply` is the runtime side: it picks the operator function C++ overload
    resolution selects for the operands and runs it. The lemmas show that the
    two agree and that every derived bound is an upper bound of the runtime
    value whenever the operands hold values in `0 <= value <= bound`, a range the
    library relies on but neither states nor checks. */
module BoundTable {
  import opened CppInt
  import opened BoundedInts

  /** The compile-time description of an operand. */
  datatype Shape = BoundedShape(bound: nat) | ConstShape(c: int) | RawShape

  /** The compile-time result: a `bounded<bound>`, a plain `value_type`, or an
      expression that does not compile because it has a `bounded<0>` operand or
      its result would be a `bounded<0>` (`bounded<0>` cannot be instantiated,
      see `Instantiable`). */
  datatype Derived = WithBound(bound: nat) | Plain | Rejected

  /** A runtime operand: a `bounded`, a `constant<c>` or a raw integer `k`. */
  datatype Operand = OfBounded(x: BoundedInt) | OfConstant(c: int) | OfRaw(k: int) {

    function Shape(): Shape {
      match this
      case OfBounded(x) => BoundedShape(x.bound)
      case OfConstant(c) => ConstShape(c)
      case OfRaw(_) => RawShape
    }

    /** The value the operand converts to. */
    function Value(): int {
      match this
      case OfBounded(x) => x.Value()
      case OfConstant(c) => c
      case OfRaw(k) => k
    }

    /** What the operand's type promises about its value. */
    predicate Invariant() {
      OfBounded? ==> x.InRange()
    }
  }

  /** The expressions this algebra is about: at least one operand is a `bounded`. */
  predicate InvolvesBounded(l: Shape, r: Shape) {
    l.BoundedShape? || r.BoundedShape?
  }

  /** `bounded<n>` can be instantiated only for `n >= 1`: the class demands
      `n >= 0`, and instantiating it also declares the friend `k % x`, whose
      result type `bounded<n - 1>` must meet the same demand. An expression
      with a `bounded<0>` operand, or one whose result would be a `bounded<0>`,
      does not compile. */
  predicate Instantiable(n: int) {
    n >= 1
  }

  /** A `bounded<n>` result type. */
  function BoundOf(n: int): (d: Derived)
    ensures d.WithBound? <==> Instantiable(n)
    ensures d.WithBound? ==> d.bound == n
  {
    if Instantiable(n) then WithBound(n) else Rejected
  }

  /** Some operand is a `bounded` type that cannot be instantiated. */
  predicate HasUninstantiableOperand(l: Shape, r: Shape) {
    (l.BoundedShape? && !Instantiable(l.bound)) || (r.BoundedShape? && !Instantiable(r.bound))
  }

  /** The result type of `l OP r`, decided from the operand types alone. Every
      bound it derives is one a `bounded` can be instantiated with. */
  function Derive(op: ArithOp, l: Shape, r: Shape): (d: Derived)
    requires InvolvesBounded(l, r)
    ensures d.WithBound? ==> Instantiable(d.bound)
  {
    if HasUninstantiableOperand(l, r) then Rejected
    else
      match l
      case BoundedShape(lbound) =>
        (match r
         case RawShape =>
           if op == Div || op == Shr then BoundOf(lbound) else Plain
         case BoundedShape(rbound) =>
           (match op
            case Add => BoundOf(lbound + rbound)
            case Sub => if rbound <= lbound then BoundOf(lbound) else Plain
            case Mul => BoundOf(lbound * rbound)
            case Rem => BoundOf(rbound - 1)
            case Div | Shr => BoundOf(lbound)
            case _ => Plain)
         case ConstShape(c) =>
           (match op
            case Add => if lbound + c >= 0 then BoundOf(lbound + c) else Plain
            case Sub => if 0 <= c <= lbound then BoundOf(lbound - c) else Plain
            case Mul => if lbound * c >= 0 then BoundOf(lbound * c) else Plain
            case Rem => if c > 0 then BoundOf(c - 1) else Plain
            case Div | Shr => BoundOf(lbound)
            case _ => Plain))
      case RawShape =>
        if op == Rem then BoundOf(r.bound - 1) else Plain
      case ConstShape(c) =>
        (match op
         case Add => if r.bound + c >= 0 then BoundOf(r.bound + c) else Plain
         case Mul => if r.bound * c >= 0 then BoundOf(r.bound * c) else Plain
         case Rem => BoundOf(r.bound - 1)
         case _ => Plain)
  }

  /** `l OP r` at runtime, through the operator overload resolution selects.
      A `requires` that fails removes a constant-operand template from the
      candidates; the constant then converts to `value_type` and the member
      operator against `value_type` (or the built-in one) is used. `x / y`,
      `x >> y` and the `BIN_OP_VALUE` operators accept a `bounded` or a
      `constant` right operand the same way. `&` has no member and is always
      the built-in operator on the converted values. */
  function Apply(op: ArithOp, l: Operand, r: Operand): Outcome
    requires InvolvesBounded(l.Shape(), r.Shape())
    requires !Derive(op, l.Shape(), r.Shape()).Rejected?
    requires Defined(op, l.Value(), r.Value())
  {
    match l
    case OfBounded(x) =>
      (match r
       case OfRaw(k) =>
         (match op
          case Div => Kept(DivValue(x, k))
          case Shr => Kept(ShiftRightValue(x, k))
          case And => Degraded(Arith(And, x.Value(), k))
          case _ => Degraded(ValueOp(op, x, k)))
       case OfBounded(y) =>
         (match op
          case Add => Kept(AddBounded(x, y))
          case Sub => SubBounded(x, y)
          case Mul => Kept(MulBounded(x, y))
          case Rem => Kept(RemBounded(x, y))
          case Div => Kept(DivValue(x, y.Value()))
          case Shr => Kept(ShiftRightValue(x, y.Value()))
          case And => Degraded(Arith(And, x.Value(), y.Value()))
          case _ => Degraded(ValueOp(op, x, y.Value())))
       case OfConstant(c) =>
         (match op
          case Add => if x.bound + c >= 0 then Kept(AddConstant(x, c)) else Degraded(ValueOp(Add, x, c))
          case Sub => SubConstant(x, c)
          case Mul => if x.bound * c >= 0 then Kept(MulConstant(x, c)) else Degraded(ValueOp(Mul, x, c))
          case Rem => if c > 0 then Kept(RemConstant(x, c)) else Degraded(ValueOp(Rem, x, c))
          case Div => Kept(DivValue(x, c))
          case Shr => Kept(ShiftRightValue(x, c))
          case And => Degraded(Arith(And, x.Value(), c))
          case _ => Degraded(ValueOp(op, x, c))))
    case OfRaw(k) =>
      if op == Rem then Kept(RawRem(k, r.x)) else Degraded(Arith(op, k, r.x.Value()))
    case OfConstant(c) =>
      (match op
       case Add =>
         if r.x.bound + c >= 0 then Kept(ConstantAdd(c, r.x)) else Degraded(Arith(Add, c, r.x.Value()))
       case Mul =>
         if r.x.bound * c >= 0 then Kept(ConstantMul(c, r.x)) else Degraded(Arith(Mul, c, r.x.Value()))
       case Rem => Kept(ConstantRem(c, r.x))
       case _ => Degraded(Arith(op, c, r.x.Value())))
  }

  /** The operator functions agree with the table: the runtime value is the
      built-in `l OP r` on the converted values, the result is a `bounded`
      exactly when the table derives a bound, and it carries that bound. */
  lemma ApplyFollowsTable(op: ArithOp, l: Operand, r: Operand)
    requires InvolvesBounded(l.Shape(), r.Shape())
    requires !Derive(op, l.Shape(), r.Shape()).Rejected?
    requires Defined(op, l.Value(), r.Value())
    ensures Apply(op, l, r).Value() == Arith(op, l.Value(), r.Value())
    ensures Apply(op, l, r).Kept? <==> Derive(op, l.Shape(), r.Shape()).WithBound?
    ensures Apply(op, l, r).Kept? ==> Apply(op, l, r).x.bound == Derive(op, l.Shape(), r.Shape()).bound
  {
  }

  /** Soundness of the table: when the operands satisfy their invariants, the
      value of `l OP r` is at most every bound the table derives for it. */
  lemma DeriveIsSound(op: ArithOp, l: Operand, r: Operand)
    requires InvolvesBounded(l.Shape(), r.Shape())
    requires Defined(op, l.Value(), r.Value())
    requires l.Invariant() && r.Invariant()
    ensures Derive(op, l.Shape(), r.Shape()).WithBound? ==>
      Arith(op, l.Value(), r.Value()) <= Derive(op, l.Shape(), r.Shape()).bound
  {
    if Derive(op, l.Shape(), r.Shape()).WithBound? {
      ApplyFollowsTable(op, l, r);
    }
  }

  /** The expressions that do not compile: those with a `bounded<0>` operand,
      and those whose result type would be a `bounded<0>` — a remainder by a
      `bounded<1>` or by `constant<1>`, `x + c` and `c + x` with `c == -b`,
      `x * constant<0>` and `constant<0> * x`, and `x - constant<b>`. */
  lemma RejectedExactly(op: ArithOp, l: Shape, r: Shape)
    requires InvolvesBounded(l, r)
    ensures Derive(op, l, r).Rejected? <==>
      || (l.BoundedShape? && l.bound == 0)
      || (r.BoundedShape? && r.bound == 0)
      || (op == Rem && r.BoundedShape? && r.bound == 1)
      || (op == Rem && l.BoundedShape? && r == ConstShape(1))
      || (op == Add && l.BoundedShape? && r.ConstShape? && l.bound + r.c == 0)
      || (op == Add && l.ConstShape? && r.BoundedShape? && r.bound + l.c == 0)
      || (op == Mul && l.BoundedShape? && r == ConstShape(0))
      || (op == Mul && l == ConstShape(0) && r.BoundedShape?)
      || (op == Sub && l.BoundedShape? && r.ConstShape? && r.c == l.bound)
  {
    if l.BoundedShape? && r.BoundedShape? && op == Mul && l.bound >= 1 && r.bound >= 1 {
      MulAtLeast(l.bound, r.bound);
    }
    if l.BoundedShape? && r.ConstShape? && op == Mul && l.bound >= 1 {
      ScaleSign(l.bound, r.c);
    }
    if l.ConstShape? && r.BoundedShape? && op == Mul && r.bound >= 1 {
      ScaleSign(r.bound, l.c);
    }
  }

  /** Scaling a positive bound keeps the sign of the factor. */
  lemma ScaleSign(b: int, c: int)
    requires b >= 1
    ensures b * c == 0 <==> c == 0
    ensures b * c > 0 <==> c > 0
  {
    if c > 0 {
      MulAtLeast(b, c);
    } else if c < 0 {
      NegMul(b, c);
      MulAtLeast(b, -c);
    }
  }

  /** A `bounded<0>` operand or result does not compile; `x - constant<4>` on a
      `bounded<5>` yields a `bounded<1>`, the smallest bound that can be
      instantiated. */
  lemma ZeroBoundExamples()
    ensures Derive(Add, BoundedShape(0), BoundedShape(0)) == Rejected
    ensures Derive(Rem, BoundedShape(5), ConstShape(1)) == Rejected
    ensures Derive(Rem, BoundedShape(5), BoundedShape(1)) == Rejected
    ensures Derive(Rem, RawShape, BoundedShape(1)) == Rejected
    ensures Derive(Mul, BoundedShape(5), ConstShape(0)) == Rejected
    ensures Derive(Sub, BoundedShape(5), ConstShape(5)) == Rejected
    ensures Derive(Sub, BoundedShape(5), ConstShape(4)) == WithBound(1)
    ensures Derive(Rem, BoundedShape(5), ConstShape(2)) == WithBound(1)
  {
  }

  /** The full invariant `0 <= value <= bound` carries over to every bounded
      result except a difference, provided every operand value is non-negative. */
  lemma NonNegativeOperandsStayInRange(op: ArithOp, l: Operand, r: Operand)
    requires InvolvesBounded(l.Shape(), r.Shape())
    requires Defined(op, l.Value(), r.Value())
    requires l.Invariant() && r.Invariant()
    requires 0 <= l.Value() && 0 <= r.Value()
    requires op != Sub
    ensures Derive(op, l.Shape(), r.Shape()).WithBound? ==>
      0 <= Arith(op, l.Value(), r.Value()) <= Derive(op, l.Shape(), r.Shape()).bound
  {
    if Derive(op, l.Shape(), r.Shape()).WithBound? {
      ApplyFollowsTable(op, l, r);
      DeriveIsSound(op, l, r);
      match op
      case Rem => RemainderBelowDivisor(l.Value(), r.Value());
      case Div => TDivBounds(l.Value(), r.Value());
      case Shr => ShiftRightShrinks(l.Value(), r.Value());
      case Mul => MulNonneg(l.Value(), r.Value());
      case _ =>
    }
  }

  /** A difference keeps its bound but not the lower half of the invariant:
      `bounded<5>(1) - bounded<5>(3)` is a `bounded<5>` holding -2. */
  lemma DifferenceLeavesRange()
    ensures Derive(Sub, BoundedShape(5), BoundedShape(5)) == WithBound(5)
    ensures Apply(Sub, OfBounded(BoundedInt(5, 1)), OfBounded(BoundedInt(5, 3)))
         == Kept(BoundedInt(5, -2))
  {
  }

  /** `bounded<10>(3) + bounded<5>(4)` is a `bounded<15>` holding 7;
      `bounded<10>(7) - bounded<10>(3)` is a `bounded<10>` holding 4;
      `bounded<10>(7) - bounded<20>(3)` is the plain integer 4. */
  lemma Scenarios()
    ensures Apply(Add, OfBounded(BoundedInt(10, 3)), OfBounded(BoundedInt(5, 4)))
         == Kept(BoundedInt(15, 7))
    ensures Apply(Sub, OfBounded(BoundedInt(10, 7)), OfBounded(BoundedInt(10, 3)))
         == Kept(BoundedInt(10, 4))
    ensures Apply(Sub, OfBounded(BoundedInt(10, 7)), OfBounded(BoundedInt(20, 3)))
         == Degraded(4)
  {
  }
}
