/** The built-in integer operators of C++, stated over unbounded integers.

    Both wrapper types compute their runtime (or compile-time) values with the
    ordinary operators of the underlying integer type. Machine widths and
    overflow are not modelled here: every value is a mathematical integer.
    Division and remainder truncate toward zero, right shift is arithmetic, and
    the bitwise operators act on the two's-complement bit pattern. */
module CppInt {

  function Abs(a: int): nat {
    if a < 0 then -a else a
  }

  /** C++ `/`: the quotient truncated toward zero (Dafny's `/` is Euclidean). */
  function TDiv(a: int, b: int): int
    requires b != 0
  {
    if (a < 0) == (b < 0) then Abs(a) / Abs(b) else -(Abs(a) / Abs(b))
  }

  /** C++ `%`: the remainder that goes with TDiv; it takes the sign of the dividend. */
  function TRem(a: int, b: int): int
    requires b != 0
  {
    if a < 0 then -(Abs(a) % Abs(b)) else Abs(a) % Abs(b)
  }

  lemma DivMod(n: int, m: int)
    requires m > 0
    ensures n == (n / m) * m + n % m && 0 <= n % m < m
  {
  }

  lemma NegMul(x: int, y: int)
    ensures x * (-y) == -(x * y) && (-x) * y == -(x * y) && (-x) * (-y) == x * y
  {
  }

  lemma MulNonneg(x: int, y: int)
    requires 0 <= x && 0 <= y
    ensures 0 <= x * y
  {
  }

  lemma MulAtLeast(d: int, p: int)
    requires d >= 1 && p > 0
    ensures d * p >= p
  {
    assert d * p == p + (d - 1) * p;
    MulNonneg(d - 1, p);
  }

  lemma MulMonotone(a: int, b: int, x: int, y: int)
    requires 0 <= a <= x && 0 <= b <= y
    ensures a * b <= x * y
  {
    assert x * y - a * b == (x - a) * y + a * (y - b);
    MulNonneg(x - a, y);
    MulNonneg(a, y - b);
  }

  /** Euclidean division is determined by any quotient/remainder pair. */
  lemma DivUnique(x: int, p: int, q: int, r: int)
    requires p > 0 && 0 <= r < p && x == q * p + r
    ensures x / p == q && x % p == r
  {
    var q', r' := x / p, x % p;
    DivMod(x, p);
    if q' > q {
      assert q' * p - q * p == (q' - q) * p;
      MulAtLeast(q' - q, p);
    } else if q' < q {
      assert q * p - q' * p == (q - q') * p;
      MulAtLeast(q - q', p);
    }
  }

  lemma DivAtMost(a: int, b: int)
    requires 0 <= a && b >= 1
    ensures 0 <= a / b <= a
  {
    DivMod(a, b);
    var q := a / b;
    if q > a {
      assert q * b == b * q;
      MulAtLeast(b, q);
    }
  }

  lemma TRemMagnitude(a: int, b: int)
    requires b != 0
    ensures Abs(TRem(a, b)) < Abs(b)
    ensures TRem(a, b) != 0 ==> (TRem(a, b) < 0 <==> a < 0)
  {
    DivMod(Abs(a), Abs(b));
  }

  /** The C++ division identity: `(a/b)*b + a%b == a`, with the quotient
      truncated toward zero and the remainder smaller than the divisor and of
      the dividend's sign. */
  lemma TruncatedDivision(a: int, b: int)
    requires b != 0
    ensures TDiv(a, b) * b + TRem(a, b) == a
    ensures Abs(TRem(a, b)) < Abs(b)
    ensures TRem(a, b) != 0 ==> (TRem(a, b) < 0 <==> a < 0)
    ensures Abs(TDiv(a, b) * b) <= Abs(a)
  {
    var n: int, m: int := Abs(a), Abs(b);
    var q: int, r: int := n / m, n % m;
    DivMod(n, m);
    TRemMagnitude(a, b);
    var qm := q * m;
    MulNonneg(q, m);
    var t := TDiv(a, b);
    if a >= 0 && b > 0 {
      assert t == q && b == m;
    } else if a >= 0 {
      assert t == -q && b == -m;
      NegMul(q, m);
    } else if b > 0 {
      assert t == -q && b == m;
      NegMul(q, m);
    } else {
      assert t == q && b == -m;
      NegMul(q, m);
    }
    assert t * b == (if (a < 0) then -qm else qm);
  }

  /** Bounds of a truncated remainder by a positive divisor. */
  lemma TRemBounds(a: int, b: int)
    requires b > 0
    ensures 0 <= a ==> 0 <= TRem(a, b) < b
    ensures a < 0 ==> -b < TRem(a, b) <= 0
  {
    DivMod(Abs(a), b);
  }

  /** A remainder by a positive divisor is below the divisor, and not negative
      for a non-negative dividend. */
  lemma RemainderBelowDivisor(a: int, d: int)
    requires d != 0
    ensures 0 < d ==> TRem(a, d) < d
    ensures 0 < d && 0 <= a ==> 0 <= TRem(a, d)
  {
    if 0 < d {
      TRemBounds(a, d);
    }
  }

  /** A non-negative dividend below the divisor is its own remainder. */
  lemma SmallRemainder(a: int, d: int)
    requires d != 0
    ensures 0 <= a < d ==> TRem(a, d) == a
  {
    if 0 <= a < d {
      DivUnique(a, d, 0, a);
    }
  }

  /** Bounds of a truncated quotient of a non-negative dividend. */
  lemma TDivBounds(a: int, b: int)
    requires 0 <= a && b != 0
    ensures 0 < b ==> 0 <= TDiv(a, b) <= a
    ensures b < 0 ==> TDiv(a, b) <= 0
  {
    DivAtMost(a, Abs(b));
  }

  function Pow2(k: nat): (p: nat)
    ensures p >= 1
  {
    if k == 0 then 1 else 2 * Pow2(k - 1)
  }

  /** C++20 `a << k`: multiplication by 2^k (no width is modelled). */
  function ShiftLeft(a: int, k: nat): int {
    a * Pow2(k)
  }

  /** C++20 `a >> k`: arithmetic shift, i.e. division by 2^k rounded toward
      minus infinity, which is Dafny's `/` for a positive divisor. */
  function ShiftRight(a: int, k: nat): int {
    a / Pow2(k)
  }

  /** Shifting right undoes shifting left. */
  lemma ShiftRightUndoesShiftLeft(a: int, k: nat)
    ensures ShiftRight(ShiftLeft(a, k), k) == a
  {
    DivUnique(a * Pow2(k), Pow2(k), a, 0);
  }

  /** A right shift of a non-negative value never increases it. */
  lemma ShiftRightShrinks(a: int, k: nat)
    requires 0 <= a
    ensures 0 <= ShiftRight(a, k) <= a
  {
    DivAtMost(a, Pow2(k));
  }

  /** The bit pattern of `a` is all zeros (0) or all ones (-1). */
  predicate IsSignFill(a: int) {
    a == 0 || a == -1
  }

  /** Halving moves every integer other than 0 and -1 strictly closer to 0. */
  lemma HalfShrinks(a: int)
    ensures Abs(a / 2) <= Abs(a)
    ensures !IsSignFill(a) ==> Abs(a / 2) < Abs(a)
  {
  }

  /** Two's-complement `&` on unbounded integers: bit 0 from `a % 2` and `b % 2`,
      the rest from the halves, until both patterns are sign fills. */
  function BitAnd(a: int, b: int): int
    decreases Abs(a) + Abs(b)
  {
    if IsSignFill(a) && IsSignFill(b) then
      (if a == -1 && b == -1 then -1 else 0)
    else
      HalfShrinks(a); HalfShrinks(b);
      2 * BitAnd(a / 2, b / 2) + (a % 2) * (b % 2)
  }

  /** Two's-complement `|` on unbounded integers. */
  function BitOr(a: int, b: int): int
    decreases Abs(a) + Abs(b)
  {
    if IsSignFill(a) && IsSignFill(b) then
      (if a == -1 || b == -1 then -1 else 0)
    else
      HalfShrinks(a); HalfShrinks(b);
      2 * BitOr(a / 2, b / 2) + (a % 2 + b % 2 - (a % 2) * (b % 2))
  }

  /** Two's-complement `^` on unbounded integers. */
  function BitXor(a: int, b: int): int
    decreases Abs(a) + Abs(b)
  {
    if IsSignFill(a) && IsSignFill(b) then
      (if a != b then -1 else 0)
    else
      HalfShrinks(a); HalfShrinks(b);
      2 * BitXor(a / 2, b / 2) + (a % 2 + b % 2) % 2
  }

  /** Two's-complement `~`. */
  function BitNot(a: int): int {
    -a - 1
  }

  /** `a | b` and `a & b` together hold every bit of `a` and of `b`. */
  lemma {:induction false} OrPlusAnd(a: int, b: int)
    ensures BitOr(a, b) + BitAnd(a, b) == a + b
    decreases Abs(a) + Abs(b)
  {
    if !(IsSignFill(a) && IsSignFill(b)) {
      HalfShrinks(a);
      HalfShrinks(b);
      OrPlusAnd(a / 2, b / 2);
    }
  }

  lemma LowBitsXor(x: int, y: int)
    requires 0 <= x < 2 && 0 <= y < 2
    ensures (x + y) % 2 + 2 * (x * y) == x + y
  {
  }

  /** `a ^ b` is the carry-free sum: `a + b == (a ^ b) + 2 * (a & b)`. */
  lemma {:induction false} XorPlusTwiceAnd(a: int, b: int)
    ensures BitXor(a, b) + 2 * BitAnd(a, b) == a + b
    decreases Abs(a) + Abs(b)
  {
    if !(IsSignFill(a) && IsSignFill(b)) {
      HalfShrinks(a);
      HalfShrinks(b);
      XorPlusTwiceAnd(a / 2, b / 2);
      LowBitsXor(a % 2, b % 2);
    }
  }

  /** Complement is exclusive-or with the all-ones pattern. */
  lemma {:induction false} XorAllOnesIsNot(a: int)
    ensures BitXor(a, -1) == BitNot(a)
    decreases Abs(a)
  {
    if !IsSignFill(a) {
      HalfShrinks(a);
      XorAllOnesIsNot(a / 2);
    }
  }

  /** The binary operators the wrappers forward to the underlying integers. */
  datatype ArithOp = Add | Sub | Mul | Div | Rem | And | Or | Xor | Shl | Shr

  /** The operand values for which the built-in operator has defined behaviour
      on unbounded integers: no division by zero and no negative shift count. */
  predicate Defined(op: ArithOp, a: int, b: int) {
    match op
    case Div | Rem => b != 0
    case Shl | Shr => b >= 0
    case _ => true
  }

  /** The value of the built-in expression `a OP b`. */
  function Arith(op: ArithOp, a: int, b: int): int
    requires Defined(op, a, b)
  {
    match op
    case Add => a + b
    case Sub => a - b
    case Mul => a * b
    case Div => TDiv(a, b)
    case Rem => TRem(a, b)
    case And => BitAnd(a, b)
    case Or => BitOr(a, b)
    case Xor => BitXor(a, b)
    case Shl => ShiftLeft(a, b)
    case Shr => ShiftRight(a, b)
  }
}
