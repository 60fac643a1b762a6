/** The value algebra of `constant<v>` (constant.hpp).

    A constant is a zero-state tag whose type carries its value. Every operator
    between two constants is evaluated at compile time and yields another
    constant. When `v OP w` is not a constant expression (division by zero, a
    negative shift count) the constant operator drops out and there is no
    constant result, which is modelled as `None`; the built-in operator on the
    converted values, whose evaluation is then undefined, is not modelled.
    Before any operator, a `bool` value is promoted to `int`, as C++ does;
    relational operators yield a `bool` constant and the others an integer
    constant. */
module Constants {
  import opened CppInt
  import opened Results

  /** The value a constant carries: an integer or a truth value. */
  datatype Value = IntValue(i: int) | BoolValue(b: bool)

  /** Integral promotion: `false` takes part in arithmetic as 0, `true` as 1. */
  function Promote(v: Value): int {
    match v
    case IntValue(i) => i
    case BoolValue(b) => if b then 1 else 0
  }

  /** `constant<v>`: the value is all there is to it. */
  datatype Constant = Constant(value: Value) {

    /** Conversion to `value_type`. */
    function ToValueType(): Value {
      value
    }
  }

  /** Converting a constant to its value type and making a constant of the
      result gives back the same constant: the value is carried exactly. */
  lemma ConversionRoundTrip(c: Constant)
    ensures Constant(c.ToValueType()) == c
    ensures Promote(c.ToValueType()) == Promote(c.value)
  {
  }

  datatype UnaryOp = Plus | Minus | Complement

  /** `+c`, `-c` and `~c`: constants carrying `+v`, `-v` and `~v`. */
  function Unary(op: UnaryOp, c: Constant): (r: Constant)
    ensures r.value.IntValue?
  {
    var v := Promote(c.value);
    Constant(IntValue(
      match op
      case Plus => v
      case Minus => -v
      case Complement => BitNot(v)))
  }

  datatype Relation = Equal | NotEqual | Less | LessEqual | Greater | GreaterEqual

  /** The operators a constant defines against another constant. */
  datatype BinaryOp = Relational(rel: Relation) | Arithmetic(op: ArithOp)

  function Compare(rel: Relation, a: int, b: int): bool {
    match rel
    case Equal => a == b
    case NotEqual => a != b
    case Less => a < b
    case LessEqual => a <= b
    case Greater => a > b
    case GreaterEqual => a >= b
  }

  /** `v OP w` is a constant expression for these values. */
  predicate WellFormed(op: BinaryOp, v: Value, w: Value) {
    op.Relational? || Defined(op.op, Promote(v), Promote(w))
  }

  /** `c OP d` for two constants: a constant exactly when `v OP w` is a constant
      expression (`None`: no constant result, evaluation undefined);
      a relational operator yields a `bool` constant, the others an integer. */
  function Binary(op: BinaryOp, c: Constant, d: Constant): (r: Option<Constant>)
    ensures r.Some? <==> WellFormed(op, c.value, d.value)
    ensures r.Some? ==> (r.value.value.BoolValue? <==> op.Relational?)
  {
    var v, w := Promote(c.value), Promote(d.value);
    match op
    case Relational(rel) => Some(Constant(BoolValue(Compare(rel, v, w))))
    case Arithmetic(a) =>
      if Defined(a, v, w) then Some(Constant(IntValue(Arith(a, v, w)))) else None
  }

  /** The sum of two integer constants is exact. */
  lemma SumIsExact(v: int, w: int)
    ensures Binary(Arithmetic(Add), Constant(IntValue(v)), Constant(IntValue(w)))
         == Some(Constant(IntValue(v + w)))
  {
  }

  /** The unary operators on constants: `-` and `~` are involutions, `~v` is
      `v ^ -1`, and `-v` and `+v` cancel. */
  lemma UnaryLaws(c: Constant)
    ensures Unary(Minus, Unary(Minus, c)) == Unary(Plus, c)
    ensures Unary(Complement, Unary(Complement, c)) == Unary(Plus, c)
    ensures Promote(Unary(Minus, c).value) + Promote(Unary(Plus, c).value) == 0
    ensures Some(Unary(Complement, c)) == Binary(Arithmetic(Xor), c, Constant(IntValue(-1)))
  {
    XorAllOnesIsNot(Promote(c.value));
  }

  /** The relational operators between constants agree with each other:
      swapping the operands turns `<` into `>` and `<=` into `>=`, and `!=`,
      `>=`, `<=` are the negations of `==`, `<`, `>`. */
  lemma RelationalLaws(c: Constant, d: Constant)
    ensures Binary(Relational(Less), c, d) == Binary(Relational(Greater), d, c)
    ensures Binary(Relational(LessEqual), c, d) == Binary(Relational(GreaterEqual), d, c)
    ensures Binary(Relational(Equal), c, d) == Binary(Relational(Equal), d, c)
    ensures Binary(Relational(NotEqual), c, d).value.value.b
         == !Binary(Relational(Equal), c, d).value.value.b
    ensures Binary(Relational(GreaterEqual), c, d).value.value.b
         == !Binary(Relational(Less), c, d).value.value.b
    ensures Binary(Relational(LessEqual), c, d).value.value.b
         == !Binary(Relational(Greater), c, d).value.value.b
  {
  }

  /** Division and remainder of constants satisfy `(c/d)*d + c%d == c`, and a
      zero divisor makes both unavailable. */
  lemma DivisionLaws(c: Constant, d: Constant)
    ensures Promote(d.value) == 0 ==>
      Binary(Arithmetic(Div), c, d).None? && Binary(Arithmetic(Rem), c, d).None?
    ensures Promote(d.value) != 0 ==>
      var q := Binary(Arithmetic(Div), c, d).value;
      var p := Binary(Arithmetic(Mul), q, d).value;
      Binary(Arithmetic(Add), p, Binary(Arithmetic(Rem), c, d).value)
        == Some(Constant(IntValue(Promote(c.value))))
  {
    if Promote(d.value) != 0 {
      TruncatedDivision(Promote(c.value), Promote(d.value));
    }
  }

  /** The bitwise operators on constants: `|` and `&` together hold every bit,
      and `^` adds without carries. */
  lemma BitwiseLaws(c: Constant, d: Constant)
    ensures Promote(Binary(Arithmetic(Or), c, d).value.value)
          + Promote(Binary(Arithmetic(And), c, d).value.value)
         == Promote(c.value) + Promote(d.value)
    ensures Promote(Binary(Arithmetic(Xor), c, d).value.value)
          + 2 * Promote(Binary(Arithmetic(And), c, d).value.value)
         == Promote(c.value) + Promote(d.value)
  {
    OrPlusAnd(Promote(c.value), Promote(d.value));
    XorPlusTwiceAnd(Promote(c.value), Promote(d.value));
  }
}
