# bounded and constant: a Dafny model

This project models two compile-time algebras of a small C++20 header library:

- `bounded<b>` (`bounded.hpp`) is an integer that carries a static upper bound `b` in its type. Every operator derives the bound of its result from the bounds of its operands. An operator that cannot derive one gives up and returns the plain underlying integer.
- `constant<v>` (`constant.hpp`) is a tag type whose value lives in its type. Its operators compute new constants at compile time. A user-defined literal `_c` parses its digit characters into a value and narrows that value to the first integer kind that can hold it.

C++ types become values here:

- A `bounded<b>` holding `v` is `BoundedInts.BoundedInt(b, v)`.
- A `constant<v>` is `Constants.Constant(v)`.
- The result type of a mixed expression is `BoundTable.Derived`. It is `WithBound(b')`, `Plain` (the plain `value_type`) or `Rejected` (the expression does not compile).

Integers are mathematical integers. C++ `/` and `%` truncate toward zero, and `>>` is an arithmetic shift. `CppInt` defines these, and two's-complement `&`, `|`, `^` and `~` on unbounded integers, and proves the laws the rest of the model uses.

Modules, one per file:

- `Results`: `Option` and `Result`.
- `CppInt` (`cpp_int.dfy`): the built-in C++ integer operators.
- `Constants` (`constants.dfy`): the value algebra of `constant<v>`.
- `BoundedInts` (`bounded_ints.dfy`): one function for each operator that `bounded` declares.
- `BoundTable` (`bound_table.dfy`): the bound-derivation rules as one table keyed by operator and operand shape. It also holds the overload resolution that picks an operator function for given operands. The lemmas show that the table and the operator functions agree, and that every derived bound is sound.
- `IntKinds` (`int_kinds.dfy`): the integer kinds `int` … `unsigned long long`, with platform widths as a parameter (`DataModel`). It also holds `narrow_decimal_integer` and `narrow_nondecimal_integer`.
- `Literals` (`literals.dfy`): digit predicates and decoders, the wrapping Horner fold `as_uint64_t`, the three `parse_*_integer` helpers and `parse_integer_literal`.

The derived bounds are sound only for values with `0 <= value <= b`; the library neither states nor checks this. The contracts therefore state what each operator guarantees *when* its operands satisfy it (`BoundedInt.InRange()`). The invariant is lost, among other places, by negation, by a difference (`x - y`, and `x - c` with `v < c`), by `++` at the bound and `--` at zero, by `x / k` with `k < 0`, and by `k % x` with `k < 0`; a remainder `x % c` of an operand already below zero carries the violation forward. Each contract states the range only under the conditions that keep it, and lemmas such as `BoundedInts.NegationLeavesRange`, `BoundTable.DifferenceLeavesRange` and `BoundedInts.NegativeRemainder` give concrete values that leave it.

### Notes on the code

- Unary `-` on a `bounded<b>` returns a `bounded<b>` (`bounded.hpp:43`), so `BoundedInts.Negate` keeps the bound. The bound is an upper bound only for a non-negative operand.
- A constant-operand template whose `requires` fails is not a compile error. Examples are `x + constant<c>` with `b + c < 0`, `x * constant<c>` with `b * c < 0`, and `x % constant<c>` with `c <= 0`. Such a template drops out of overload resolution. The constant then converts to `value_type`, and the member operator against a `value_type` (or the built-in one) is used, so the result is a plain integer.
- `bounded<0>` cannot be used. Instantiating `bounded<n>` also declares the friend `k % x` (`bounded.hpp:85`), whose result type `bounded<n - 1>` must meet the class's own demand `n - 1 >= 0` (`bounded.hpp:10-11`). So an expression with a `bounded<0>` operand does not compile, and neither does one whose result would be a `bounded<0>`. Examples are `x % constant<1>`, `x % y` with a `bounded<1>` divisor, `x * constant<0>` and `x - constant<b>`. `BoundTable.Derive` rejects exactly these (`BoundTable.RejectedExactly`), and every bound it derives is at least 1.
- `x % constant<c>` lands in `[0, c-1]` for a non-negative `x`. Remainders truncate, so a negative value gives a negative remainder (`BoundedInts.NegativeRemainder`).
- The literal `0x1F` is an `int`, the first non-decimal candidate kind. An octal or hexadecimal literal becomes `unsigned` only when it does not fit `int`, as `0xFFFFFFFF` does not on LP64 (`IntKinds.RadixDecidesKind`).

## Model

| member | source | states |
|---|---|---|
| CppInt.TruncatedDivision | constant.hpp:47-48 | C++ `/` and `%` satisfy `(a/b)*b + a%b == a`; the remainder is smaller than the divisor in magnitude and has the dividend's sign; the quotient truncates toward zero |
| CppInt.TRemBounds | bounded.hpp:119-124 | a remainder by a positive divisor lies in `[0, b)` for a non-negative dividend and in `(-b, 0]` for a negative one |
| CppInt.TDivBounds | bounded.hpp:73-76 | dividing a non-negative value by a positive divisor gives a result between 0 and the value; a negative divisor gives a non-positive result |
| CppInt.ShiftRightShrinks | bounded.hpp:79-82 | an arithmetic right shift keeps a non-negative value between zero and itself |
| CppInt.ShiftRightUndoesShiftLeft | constant.hpp:52-53 | `(a << k) >> k == a` |
| CppInt.OrPlusAnd | constant.hpp:49-50 | `(a OR b) + (a AND b) == a + b` in two's complement |
| CppInt.XorPlusTwiceAnd | constant.hpp:49-51 | `(a XOR b) + 2*(a AND b) == a + b`: exclusive or is addition without carries |
| CppInt.XorAllOnesIsNot | constant.hpp:28 | `~a == a ^ -1` |
| Constants.ConversionRoundTrip | constant.hpp:12-18 | converting a constant to its value type gives exactly its value; a constant made from that value is the same constant |
| Constants.Unary | constant.hpp:26-28 | unary `+`, `-`, `~` on a constant give an integer constant, with `bool` promoted first |
| Constants.UnaryLaws | constant.hpp:26-28 | `-(-c)` and `~(~c)` are `+c`; `-c` and `+c` cancel; `~c` equals the constant `c ^ -1` |
| Constants.Binary | constant.hpp:31-53 | `c OP d` yields a constant exactly when `v OP w` is a constant expression (no zero divisor, no negative shift count); otherwise there is no constant result, and the built-in operator on the converted values has undefined behaviour; the result is a `bool` constant exactly for the relational operators |
| Constants.SumIsExact | constant.hpp:44 | the sum of two integer constants is exactly `v + w` |
| Constants.RelationalLaws | constant.hpp:36-41 | `<`/`>` and `<=`/`>=` are mirror images; `==` is symmetric; `!=`, `>=`, `<=` negate `==`, `<`, `>` |
| Constants.DivisionLaws | constant.hpp:47-48 | a zero divisor makes `/` and `%` unavailable; otherwise `(c/d)*d + c%d == c` with constant operators throughout |
| Constants.BitwiseLaws | constant.hpp:49-51 | bitwise OR and AND of two constants together hold every bit of both operands; XOR adds without carries |
| BoundedInts.Construct | bounded.hpp:19-21 | construction accepts any value and stores it with bound `b` |
| BoundedInts.ConstructionIsUnchecked | bounded.hpp:19-34 | `value()` and the conversion give back the stored value, and constructing from it reproduces the same `bounded`; values above the bound or below zero are accepted |
| BoundedInts.ConstantIntoBounded | bounded.hpp:19-21 | a constant converted to its value and stored in a `bounded` comes back unchanged; a `bool` constant is stored as 0 or 1 |
| BoundedInts.UnaryPlus | bounded.hpp:42 | `+x` has the same bound and value, and keeps the invariant |
| BoundedInts.Negate | bounded.hpp:43 | `-x` keeps bound `b` and holds `-v`; `-v <= b` whenever `v >= 0` |
| BoundedInts.NegationLeavesRange | bounded.hpp:43 | negating an in-range value can leave the range |
| BoundedInts.PreIncrement | bounded.hpp:44 | `++x` adds one and keeps the bound |
| BoundedInts.PreDecrement | bounded.hpp:45 | `--x` subtracts one and keeps the bound |
| BoundedInts.PostIncrement | bounded.hpp:46 | `x++` yields the old `bounded` and leaves the value one higher under the same bound |
| BoundedInts.PostDecrement | bounded.hpp:47 | `x--` yields the old `bounded` and leaves the value one lower under the same bound |
| BoundedInts.IncrementDecrementLaws | bounded.hpp:44-47 | `++` and `--` undo each other; postfix and prefix forms leave the same state; `++` at the bound and `--` at zero leave the range |
| BoundedInts.DivValue | bounded.hpp:73-76 | `x / k` keeps bound `b`, holds the truncated quotient, stays at most `b` under the invariant, and stays in range for `k > 0` |
| BoundedInts.ShiftRightValue | bounded.hpp:79-82 | `x >> k` keeps bound `b`, holds the shifted value, and keeps the invariant |
| BoundedInts.RawRem | bounded.hpp:85-88 | `k % x` has bound `bx - 1` and holds `k % v`; it is at most that bound under the invariant, and in range for `k >= 0` |
| BoundedInts.AddBounded | bounded.hpp:91-96 | `x + y` has bound `bx + by`, holds `vx + vy`, and keeps the invariant |
| BoundedInts.SubBounded | bounded.hpp:98-110 | `x - y` is a `bounded<bx>` exactly when `by <= bx` and a plain integer otherwise; it holds `vx - vy`, at most `bx` under the invariants |
| BoundedInts.MulBounded | bounded.hpp:112-117 | `x * y` has bound `bx * by`, holds `vx * vy`, and keeps the invariant |
| BoundedInts.ProductBound | bounded.hpp:112-117 | the product of in-range values lies in `[0, bx * by]` |
| BoundedInts.RemBounded | bounded.hpp:119-124 | `x % y` has bound `by - 1`, holds `vx % vy`, and keeps the invariant |
| BoundedInts.AddConstant | bounded.hpp:127-132 | `x + c` (for `b + c >= 0`) has bound `b + c` and holds `v + c`, at most the bound under the invariant |
| BoundedInts.ConstantAdd | bounded.hpp:134-139 | `c + x` (for `b + c >= 0`) has bound `c + b` and holds `c + v`, at most the bound under the invariant |
| BoundedInts.SubConstant | bounded.hpp:141-152 | `x - c` is a `bounded<b - c>` exactly when `0 <= c <= b`, else a plain integer; it holds `v - c`, at most the bound under the invariant |
| BoundedInts.MulConstant | bounded.hpp:154-159 | `x * c` (for `b * c >= 0`) has bound `b * c` and holds `v * c`, at most the bound under the invariant |
| BoundedInts.ConstantMul | bounded.hpp:161-166 | `c * x` (for `b * c >= 0`) has bound `c * b` and holds `c * v`, at most the bound under the invariant |
| BoundedInts.ScaledBound | bounded.hpp:154-166 | scaling an in-range value by `c` with `b * c >= 0` stays at most `b * c`, and non-negative for `c >= 0` |
| BoundedInts.RemConstant | bounded.hpp:168-173 | `x % c` (for `c > 0`) has bound `c - 1`, and any non-negative value lands in `[0, c - 1]` whatever its own bound |
| BoundedInts.NegativeRemainder | bounded.hpp:168-173 | `bounded<5>(-7) % constant<3>` holds -1, outside its range |
| BoundedInts.ConstantRem | bounded.hpp:175-179 | `c % x` has bound `bx - 1` and holds `c % v`; it is at most that bound under the invariant, and in range for `c >= 0`; a constant `0 <= c < v` comes back unchanged |
| BoundedInts.NumericLimitsMaxIsBound | bounded.hpp:185-193 | `numeric_limits<bounded<b>>::max()` is `b`, the least upper bound of the in-range values |
| BoundTable.ApplyFollowsTable | bounded.hpp:49-179 | for every operator and operand shape, the operator overload resolution picks computes the built-in `l OP r` on the converted values; it yields a `bounded` exactly when the table derives a bound, and carries that bound |
| BoundTable.DeriveIsSound | bounded.hpp:90-179 | when the operands satisfy their invariants, every bound the table derives is an upper bound of the result value |
| BoundTable.Derive | bounded.hpp:10-11 | every result type the table derives is a `bounded<n>` that can be instantiated, that is `n >= 1` |
| BoundTable.RejectedExactly | bounded.hpp:85-179 | an expression fails to compile exactly when it has a `bounded<0>` operand or its result would be a `bounded<0>`: a remainder by `bounded<1>` or `constant<1>`, `x + c` or `c + x` with `c == -b`, a product with `constant<0>`, or `x - constant<b>` |
| BoundTable.ZeroBoundExamples | bounded.hpp:85-88 | `bounded<0> + bounded<0>`, `x % constant<1>`, `x % bounded<1>`, `k % bounded<1>`, `x * constant<0>` and `bounded<5> - constant<5>` are rejected; `bounded<5> - constant<4>` and `bounded<5> % constant<2>` are `bounded<1>` |
| BoundTable.NonNegativeOperandsStayInRange | bounded.hpp:72-179 | with non-negative in-range operands, every bounded result other than a difference satisfies the full invariant `0 <= v <= bound` |
| BoundTable.DifferenceLeavesRange | bounded.hpp:98-110 | `bounded<5>(1) - bounded<5>(3)` is a `bounded<5>` holding -2 |
| BoundTable.Scenarios | bounded.hpp:91-110 | `bounded<10>(3) + bounded<5>(4)` is `bounded<15>(7)`; `bounded<10>(7) - bounded<10>(3)` is `bounded<10>(4)`; `bounded<10>(7) - bounded<20>(3)` is the plain 4 |
| IntKinds.DataModel.Convert | constant.hpp:150-158 | `static_cast` to an integer kind yields a value of that kind, congruent to the operand modulo the number of values of the kind, and equal to the operand whenever the kind holds it |
| IntKinds.FirstHolding | constant.hpp:165-188 | the position of the first candidate kind that holds a value (or the last position): no earlier kind holds it |
| IntKinds.NarrowDecimal | constant.hpp:145-160 | a decimal value becomes the first of `int`, `long`, `long long` that holds it (else `long long`); the kind is signed, the result fits it and is congruent to the value modulo the number of values of the kind, and the value is kept whenever the kind holds it |
| IntKinds.NarrowNondecimal | constant.hpp:162-189 | a non-decimal value becomes the first of `int`, `unsigned`, `long`, `unsigned long`, `long long`, `unsigned long long` that holds it, and is always kept |
| IntKinds.RadixDecidesKind | constant.hpp:145-189 | on LP64, 2^32 - 1 is an `unsigned int` in octal or hexadecimal but a `long` in decimal |
| IntKinds.DecimalAboveLongLongWraps | constant.hpp:156-159 | on LP64, `int` and `long long` have 2^32 and 2^64 values, and decimal 2^63 becomes the `long long` -2^63 |
| Literals.AsUint64IsPositionalValue | constant.hpp:66-77 | the left-to-right fold `result * base + digit` in wrapping `uint64_t` arithmetic gives the positional value of the digits, after the accumulator's contribution, modulo 2^64 |
| Literals.DigitInTables | constant.hpp:79-115 | every digit of a base decodes below the base, to the character's position in `0123456789abcdef` or `0123456789ABCDEF` |
| Literals.TablesHoldDigits | constant.hpp:79-115 | every character of those tables below the base is a digit of the base and decodes to its position |
| Literals.ParseDigits | constant.hpp:118-142 | the digits after the prefix are rejected when empty or when one lies outside the base's digit set; otherwise the result is their positional value modulo 2^64 |
| Literals.ParseIntegerLiteral | constant.hpp:191-211 | a character sequence is accepted exactly when it is a hexadecimal (`0x`/`0X` and one or more hex digits), octal (`0` and octal digits) or decimal (non-zero digit first) literal; the value fits the kind chosen |
| Literals.LiteralMeaning | constant.hpp:196-210 | prefix dispatch: a hex literal is read from its third character, an octal literal from its second, and a decimal literal (or a lone `0`) whole; each is narrowed as its radix demands |
| Literals.ParseRendered | constant.hpp:118-142 | the digits of any `uint64_t` in any radix parse back to it |
| Literals.HexadecimalRoundTrip | constant.hpp:196-200 | every `uint64_t` written as `0x…` or `0X…` reads back as itself, in the kind non-decimal narrowing picks |
| Literals.OctalRoundTrip | constant.hpp:201-205 | every `uint64_t` written as `0…` in octal reads back as itself |
| Literals.DecimalRoundTrip | constant.hpp:206-210 | every `uint64_t` written in decimal reads back through decimal narrowing; its value is kept exactly when it is at most `LLONG_MAX` |
| Literals.HexadecimalExample | constant.hpp:196-200 | `0x1F` is the `int` 31 on LP64 |
| Literals.OctalExample | constant.hpp:201-205 | `017` is the `int` 15 on LP64 |
| Literals.ZeroExample | constant.hpp:206-210 | a lone `0` takes the decimal path and is the `int` 0 |
| Literals.RejectedExamples | constant.hpp:118-142 | `0x` alone and `08` fail as octal, `0b1` fails as octal, `1'000` fails as decimal, and the empty sequence has no digits |

## Left out

- Stream output (`operator<<`, `bounded.hpp:36-39` and `constant.hpp:20-23`) and the `fmt::formatter` specialisation (`constant.hpp:231-251`) are text formatting glue. They are not modelled.
- The `operator "" _c` wrapper and its feature gating (`constant.hpp:61`, `223-227`) are language plumbing. `Literals.ParseIntegerLiteral` on a character sequence is the entry point.
- Failure to compile is modelled as a value: `Rejected` or a `LiteralError`. `None` from `Constants.Binary` means no constant result; the fallback to the built-in operator on the converted values, whose evaluation is then undefined, is not modelled. C++ diagnostics, and the difference between a substitution failure and a hard error, are not modelled.
- Machine widths of `bounded` and `constant` arithmetic are not modelled. Values are unbounded integers, so there is no signed overflow (undefined behaviour in C++), no unsigned wrap-around of an unsigned constant, and no undefined shift by a count at least the operand's width. Only literal parsing models widths, because its wrap-around is part of the code: `uint64_t` in the fold and the narrowing casts.
- `BoundedInts.ShiftRightValue`, `CppInt.ShiftLeft` and the constant shifts assume C++20 semantics: `>>` is arithmetic, and `<<` of a negative value is multiplication by 2^k.
- A `bounded` whose value type is unsigned (`bounded<10u>`) is not modelled; values are signed mathematical integers. In C++ its arithmetic wraps modulo 2^width as defined behaviour: `bounded<10u>(1) - bounded<5u>(3)` is a `bounded<10u>` holding 4294967294, above its bound. So `BoundTable.DeriveIsSound` for a difference, and the `-v <= b` of `BoundedInts.Negate`, hold for signed value types only.
- A `bool` as the bound or value type of a `bounded` is not modelled. Bounds are natural numbers and values are integers. `bool` constants are modelled and promoted to `int` before any operator.
- Platform integer widths are a parameter, `IntKinds.DataModel`. Its `Valid()` predicate asks for the standard's minimum ranges and ordering, and each unsigned kind has the width of its signed counterpart. `LP64` is the concrete instance the examples use.
- `numeric_limits` traits other than `max()` are inherited unchanged from the standard library and are not computed.
- The relational operators of `bounded` are commented out in the source (`bounded.hpp:53-60`). Comparisons go through the conversion to `value_type` and are not modelled separately.
- Literals.ParseDigits: a literal whose digits denote 2^64 or more is not rejected. As in the code, it wraps modulo 2^64, and a decimal literal above `LLONG_MAX` wraps when it is cast to `long long`.
- Literals.HexadecimalRoundTrip: the round trips render letters in lower case. Upper-case digits are covered by `Literals.DigitInTables` and `Literals.TablesHoldDigits`.
