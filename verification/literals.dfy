/** Parsing an integer literal's characters into a narrowed value
    (constant.hpp, namespace `detail`).

    A literal starting `0x`/`0X` is hexadecimal, one starting `0` is octal,
    any other is decimal. The digits after the prefix are validated for their
    base, folded into a `uint64_t` with wrapping arithmetic, and the result is
    narrowed to the first integer kind that can hold it. */
module Literals {
  import opened CppInt
  import opened Results
  import opened IntKinds

  function WrapUint64(n: int): Uint64 {
    n % Uint64Modulus
  }

  /** `as_uint64_t(result, base, digits...)`: a left-to-right Horner fold,
      `result * base + digit` per digit, each step in wrapping `uint64_t`
      arithmetic. The source takes at least one digit. */
  function AsUint64(result: Uint64, base: Uint64, digits: seq<Uint64>): Uint64
    requires |digits| > 0
    decreases |digits|
  {
    var next := WrapUint64(WrapUint64(result * base) + digits[0]);
    if |digits| == 1 then next else AsUint64(next, base, digits[1..])
  }

  function Pow(b: nat, n: nat): nat {
    if n == 0 then 1 else b * Pow(b, n - 1)
  }

  /** The number the digit sequence denotes in positional notation, most
      significant digit first. */
  function PositionalValue(base: nat, digits: seq<nat>): nat {
    if |digits| == 0 then 0
    else PositionalValue(base, digits[..|digits| - 1]) * base + digits[|digits| - 1]
  }

  /** `(a*p + t) * b == a * (b*p) + t*b`. */
  lemma Regroup(a: int, p: int, t: int, b: int)
    ensures (a * p + t) * b == a * (b * p) + t * b
  {
    assert (a * p) * b == a * (b * p);
  }

  /** Splitting off the leading digit: it contributes `d * base^(n-1)`. */
  lemma {:induction false} PositionalValueFront(base: nat, digits: seq<nat>)
    requires |digits| > 0
    ensures PositionalValue(base, digits)
         == digits[0] * Pow(base, |digits| - 1) + PositionalValue(base, digits[1..])
    decreases |digits|
  {
    var n := |digits|;
    if n == 1 {
      assert digits[..0] == [] && digits[1..] == [];
    } else {
      var init := digits[..n - 1];
      var tail := digits[1..];
      var last := digits[n - 1];
      PositionalValueFront(base, init);
      assert init[1..] == tail[..n - 2];
      var p := Pow(base, n - 2);
      var t := PositionalValue(base, tail[..n - 2]);
      assert PositionalValue(base, init) == digits[0] * p + t;
      assert PositionalValue(base, tail) == t * base + last;
      Regroup(digits[0], p, t, base);
    }
  }

  /** Reducing modulo 2^64 before a multiply-add does not change the result
      modulo 2^64. */
  lemma WrapBeforeMulAdd(x: int, y: int, z: int)
    ensures (WrapUint64(x) * y + z) % Uint64Modulus == (x * y + z) % Uint64Modulus
  {
    var M := Uint64Modulus;
    var k := x / M;
    DivMod(x, M);
    assert x * y == WrapUint64(x) * y + (k * y) * M by {
      assert x == k * M + WrapUint64(x);
      assert x * y == (k * M) * y + WrapUint64(x) * y;
      assert (k * M) * y == (k * y) * M;
    }
    var a := WrapUint64(x) * y + z;
    DivMod(a, M);
    DivUnique(a + (k * y) * M, M, a / M + k * y, a % M);
  }

  /** One step of the fold: wrapping the accumulator before the next `p`
      positions are added on does not change the final value modulo 2^64. */
  lemma FoldStep(result: int, base: int, d: int, p: int, t: int)
    ensures (WrapUint64(result * base + d) * p + t) % Uint64Modulus
         == (result * (base * p) + d * p + t) % Uint64Modulus
  {
    WrapBeforeMulAdd(result * base + d, p, t);
    Regroup(result, base, d, p);
  }

  /** The fold computes the positional value of the digits, after the
      accumulator's own contribution, modulo 2^64. */
  lemma {:induction false} AsUint64IsPositionalValue(result: Uint64, base: Uint64, digits: seq<Uint64>)
    requires |digits| > 0
    ensures AsUint64(result, base, digits)
         == (result * Pow(base, |digits|) + PositionalValue(base, digits)) % Uint64Modulus
    decreases |digits|
  {
    var n := |digits|;
    var d := digits[0];
    var rest := digits[1..];
    var p := Pow(base, n - 1);
    WrapBeforeMulAdd(result * base, 1, d);
    var next := WrapUint64(result * base + d);
    assert WrapUint64(WrapUint64(result * base) + d) == next;
    PositionalValueFront(base, digits);
    assert Pow(base, n) == base * p;
    if n == 1 {
      assert rest == [] && p == 1;
    } else {
      var t := PositionalValue(base, rest);
      AsUint64IsPositionalValue(next, base, rest);
      FoldStep(result, base, d, p, t);
    }
  }

  predicate IsDecimalDigit(c: char) {
    '0' <= c <= '9'
  }

  function ToDecimalDigit(c: char): Uint64 {
    WrapUint64(c as int - '0' as int)
  }

  predicate IsOctalDigit(c: char) {
    '0' <= c <= '7'
  }

  function ToOctalDigit(c: char): Uint64 {
    WrapUint64(c as int - '0' as int)
  }

  predicate IsHexadecimalDigit(c: char) {
    ('0' <= c <= '9') || ('A' <= c <= 'F') || ('a' <= c <= 'f')
  }

  function ToHexadecimalDigit(c: char): Uint64 {
    if '0' <= c <= '9' then WrapUint64(c as int - '0' as int)
    else if 'A' <= c <= 'F' then WrapUint64(10 + c as int - 'A' as int)
    else WrapUint64(10 + c as int - 'a' as int)
  }

  datatype Radix = Octal | Decimal | Hexadecimal

  function Base(r: Radix): Uint64 {
    match r
    case Octal => 8
    case Decimal => 10
    case Hexadecimal => 16
  }

  predicate IsDigit(r: Radix, c: char) {
    match r
    case Octal => IsOctalDigit(c)
    case Decimal => IsDecimalDigit(c)
    case Hexadecimal => IsHexadecimalDigit(c)
  }

  function ToDigit(r: Radix, c: char): Uint64 {
    match r
    case Octal => ToOctalDigit(c)
    case Decimal => ToDecimalDigit(c)
    case Hexadecimal => ToHexadecimalDigit(c)
  }

  /** The digit characters in order of value, in both letter cases. */
  const LowerDigits: string := "0123456789abcdef"
  const UpperDigits: string := "0123456789ABCDEF"

  /** The character of value `d` in each table. */
  lemma DigitTableEntries(d: nat)
    requires d < 16
    ensures LowerDigits[d] as int == if d < 10 then '0' as int + d else 'a' as int + d - 10
    ensures UpperDigits[d] as int == if d < 10 then '0' as int + d else 'A' as int + d - 10
  {
    if d < 8 {
      if d < 4 { assert d == 0 || d == 1 || d == 2 || d == 3; }
      else { assert d == 4 || d == 5 || d == 6 || d == 7; }
    } else {
      if d < 12 { assert d == 8 || d == 9 || d == 10 || d == 11; }
      else { assert d == 12 || d == 13 || d == 14 || d == 15; }
    }
  }

  /** A digit of a base decodes below the base, to the position of the
      character in one of the tables. */
  lemma DigitInTables(r: Radix, c: char)
    requires IsDigit(r, c)
    ensures ToDigit(r, c) < Base(r)
    ensures LowerDigits[ToDigit(r, c)] == c || UpperDigits[ToDigit(r, c)] == c
  {
    var d: int;
    if '0' <= c <= '9' {
      d := c as int - '0' as int;
    } else if 'A' <= c <= 'F' {
      d := 10 + c as int - 'A' as int;
    } else {
      d := 10 + c as int - 'a' as int;
    }
    assert 0 <= d < 16;
    DivUnique(d, Uint64Modulus, 0, d);
    assert ToDigit(r, c) == d;
    DigitTableEntries(d);
  }

  /** Conversely, every table entry below the base is a digit of that base and
      decodes to its own position. */
  lemma TablesHoldDigits(r: Radix, d: nat)
    requires d < Base(r)
    ensures IsDigit(r, LowerDigits[d]) && ToDigit(r, LowerDigits[d]) == d
    ensures IsDigit(r, UpperDigits[d]) && ToDigit(r, UpperDigits[d]) == d
  {
    DigitTableEntries(d);
  }

  datatype LiteralError = MissingDigits(radix: Radix) | InvalidDigits(radix: Radix)

  predicate AllDigits(r: Radix, s: string) {
    forall i :: 0 <= i < |s| ==> IsDigit(r, s[i])
  }

  function DigitValues(r: Radix, s: string): (ds: seq<Uint64>)
    ensures |ds| == |s|
  {
    seq(|s|, i requires 0 <= i < |s| => ToDigit(r, s[i]))
  }

  /** The common body of `parse_hexadecimal_integer`, `parse_octal_integer`
      and `parse_decimal_integer` once the prefix is skipped: an empty digit
      sequence and a character outside the base's digit set are rejected,
      otherwise the result is the value of the digits modulo 2^64. */
  function ParseDigits(r: Radix, s: string): (res: Result<Uint64, LiteralError>)
    ensures res == Failure(MissingDigits(r)) <==> |s| == 0
    ensures res == Failure(InvalidDigits(r)) <==> |s| > 0 && !AllDigits(r, s)
    ensures res.Success? ==>
      res.value == PositionalValue(Base(r), DigitValues(r, s)) % Uint64Modulus
  {
    if |s| == 0 then Failure(MissingDigits(r))
    else if !AllDigits(r, s) then Failure(InvalidDigits(r))
    else
      AsUint64IsPositionalValue(0, Base(r), DigitValues(r, s));
      Success(AsUint64(0, Base(r), DigitValues(r, s)))
  }

  /** `parse_hexadecimal_integer<chars...>()`: skips the two prefix characters. */
  function ParseHexadecimalInteger(chars: string): Result<Uint64, LiteralError>
    requires |chars| >= 2
  {
    ParseDigits(Hexadecimal, chars[2..])
  }

  /** `parse_octal_integer<chars...>()`: skips the leading `0`. */
  function ParseOctalInteger(chars: string): Result<Uint64, LiteralError>
    requires |chars| >= 1
  {
    ParseDigits(Octal, chars[1..])
  }

  /** `parse_decimal_integer<chars...>()`. */
  function ParseDecimalInteger(chars: string): Result<Uint64, LiteralError> {
    ParseDigits(Decimal, chars)
  }

  /** The C++ grammar of unsuffixed integer literals without binary literals
      or digit separators:
      `0x`/`0X` and one or more hexadecimal digits, `0` and zero or more octal
      digits, or a non-zero decimal digit and zero or more decimal digits. */
  predicate IsHexadecimalLiteral(s: string) {
    |s| > 2 && s[0] == '0' && (s[1] == 'x' || s[1] == 'X') && AllDigits(Hexadecimal, s[2..])
  }

  predicate IsOctalLiteral(s: string) {
    |s| > 0 && s[0] == '0' && AllDigits(Octal, s[1..])
  }

  predicate IsDecimalLiteral(s: string) {
    |s| > 0 && '1' <= s[0] <= '9' && AllDigits(Decimal, s[1..])
  }

  /** `parse_integer_literal<chars...>()`: prefix dispatch, digit validation,
      the wrapping fold and narrowing. The literals accepted are exactly those
      of the C++ grammar, and the value always fits the kind chosen. */
  function ParseIntegerLiteral(dm: DataModel, chars: string): (r: Result<TypedValue, LiteralError>)
    requires dm.Valid()
    ensures r.Success? <==> IsHexadecimalLiteral(chars) || IsOctalLiteral(chars) || IsDecimalLiteral(chars)
    ensures r.Success? ==> dm.Holds(r.value.kind, r.value.value)
  {
    if |chars| > 2 && chars[0] == '0' && (chars[1] == 'x' || chars[1] == 'X') then
      var v :- ParseHexadecimalInteger(chars);
      Success(NarrowNondecimal(dm, v))
    else if |chars| > 1 && chars[0] == '0' then
      var v :- ParseOctalInteger(chars);
      Success(NarrowNondecimal(dm, v))
    else
      var v :- ParseDecimalInteger(chars);
      Success(NarrowDecimal(dm, v))
  }

  /** What an accepted literal denotes: the positional value of the digits
      after its prefix, reduced modulo 2^64, narrowed as its radix demands. A
      lone `0` takes the decimal path. */
  lemma LiteralMeaning(dm: DataModel, s: string)
    requires dm.Valid()
    ensures IsHexadecimalLiteral(s) ==>
      ParseIntegerLiteral(dm, s) == Success(NarrowNondecimal(dm,
        PositionalValue(16, DigitValues(Hexadecimal, s[2..])) % Uint64Modulus))
    ensures IsOctalLiteral(s) && |s| > 1 ==>
      ParseIntegerLiteral(dm, s) == Success(NarrowNondecimal(dm,
        PositionalValue(8, DigitValues(Octal, s[1..])) % Uint64Modulus))
    ensures IsDecimalLiteral(s) || s == "0" ==>
      ParseIntegerLiteral(dm, s) == Success(NarrowDecimal(dm,
        PositionalValue(10, DigitValues(Decimal, s)) % Uint64Modulus))
  {
  }

  /** Appending a digit shifts the value up by one position. */
  lemma AppendDigit(base: nat, front: seq<nat>, d: nat)
    ensures PositionalValue(base, front + [d]) == PositionalValue(base, front) * base + d
  {
    assert (front + [d])[..|front|] == front;
  }

  /** Splitting `n >= base` into its quotient and last digit. */
  lemma LastDigit(base: nat, n: nat)
    requires base >= 2 && n >= base
    ensures 1 <= n / base < n
    ensures 0 <= n % base < base
    ensures n == (n / base) * base + n % base
  {
    DivMod(n, base);
    DivAtMost(n, base);
  }

  /** The digits of `n` in base `base`, most significant first, without
      leading zeros. */
  function Digits(base: nat, n: nat): (ds: seq<nat>)
    requires base >= 2
    ensures |ds| > 0
    ensures forall i :: 0 <= i < |ds| ==> ds[i] < base
    ensures n > 0 ==> ds[0] != 0
    ensures PositionalValue(base, ds) == n
    decreases n
  {
    if n < base then [n]
    else
      LastDigit(base, n);
      var front := Digits(base, n / base);
      AppendDigit(base, front, n % base);
      front + [n % base]
  }

  /** `n` written in the given radix with lower-case letters, without prefix. */
  function Render(r: Radix, n: nat): (s: string)
  {
    var ds := Digits(Base(r), n);
    seq(|ds|, i requires 0 <= i < |ds| => LowerDigits[ds[i]])
  }

  /** Rendered digits are digits of their radix and decode back to `n`'s
      digits; the first is `0` only for `n == 0`. */
  lemma RenderDigits(r: Radix, n: nat)
    ensures |Render(r, n)| > 0 && AllDigits(r, Render(r, n))
    ensures DigitValues(r, Render(r, n)) == Digits(Base(r), n)
    ensures n > 0 ==> Render(r, n)[0] != '0'
  {
    var ds := Digits(Base(r), n);
    var s := Render(r, n);
    forall i | 0 <= i < |s|
      ensures IsDigit(r, s[i]) && ToDigit(r, s[i]) == ds[i]
    {
      TablesHoldDigits(r, ds[i]);
    }
    if n > 0 {
      TablesHoldDigits(Decimal, 0);
      TablesHoldDigits(r, ds[0]);
    }
  }

  /** Parsing a rendered digit string gives the number back. */
  lemma ParseRendered(r: Radix, n: Uint64)
    ensures ParseDigits(r, Render(r, n)) == Success(n)
  {
    RenderDigits(r, n);
    DivUnique(n, Uint64Modulus, 0, n);
  }

  /** Every `uint64_t` written in hexadecimal with either prefix case reads
      back as itself, in the kind `narrow_nondecimal_integer` chooses. */
  lemma HexadecimalRoundTrip(dm: DataModel, n: Uint64)
    requires dm.Valid()
    ensures ParseIntegerLiteral(dm, "0x" + Render(Hexadecimal, n)) == Success(NarrowNondecimal(dm, n))
    ensures ParseIntegerLiteral(dm, "0X" + Render(Hexadecimal, n)) == Success(NarrowNondecimal(dm, n))
    ensures ParseIntegerLiteral(dm, "0x" + Render(Hexadecimal, n)).value.value == n
  {
    RenderDigits(Hexadecimal, n);
    ParseRendered(Hexadecimal, n);
    assert ("0x" + Render(Hexadecimal, n))[2..] == Render(Hexadecimal, n);
    assert ("0X" + Render(Hexadecimal, n))[2..] == Render(Hexadecimal, n);
  }

  /** Every `uint64_t` written in octal behind a `0` reads back as itself. */
  lemma OctalRoundTrip(dm: DataModel, n: Uint64)
    requires dm.Valid()
    ensures ParseIntegerLiteral(dm, "0" + Render(Octal, n)) == Success(NarrowNondecimal(dm, n))
    ensures ParseIntegerLiteral(dm, "0" + Render(Octal, n)).value.value == n
  {
    var s := Render(Octal, n);
    RenderDigits(Octal, n);
    ParseRendered(Octal, n);
    assert ("0" + s)[1..] == s;
    assert ("0" + s)[1] == s[0];
  }

  /** Every `uint64_t` written in decimal reads back as the `int`, `long` or
      `long long` `narrow_decimal_integer` chooses; its value is kept up to
      `LLONG_MAX` and wraps above it. */
  lemma DecimalRoundTrip(dm: DataModel, n: Uint64)
    requires dm.Valid()
    ensures ParseIntegerLiteral(dm, Render(Decimal, n)) == Success(NarrowDecimal(dm, n))
    ensures n <= dm.longLongMax <==> ParseIntegerLiteral(dm, Render(Decimal, n)).value.value == n
  {
    RenderDigits(Decimal, n);
    ParseRendered(Decimal, n);
  }

  /** `0x1F` is the `int` 31 on LP64. */
  lemma HexadecimalExample()
    ensures ParseIntegerLiteral(LP64, "0x1F") == Success(TypedValue(Int, 31))
  {
    assert "0x1F"[2..] == "1F";
    assert AllDigits(Hexadecimal, "1F");
    assert DigitValues(Hexadecimal, "1F") == [1, 15];
    assert [1, 15][..1] == [1];
    assert PositionalValue(16, [1, 15]) == 31;
    DivUnique(31, Uint64Modulus, 0, 31);
    assert ParseHexadecimalInteger("0x1F") == Success(31);
  }

  /** `017` is the `int` 15 on LP64. */
  lemma OctalExample()
    ensures ParseIntegerLiteral(LP64, "017") == Success(TypedValue(Int, 15))
  {
    assert "017"[1..] == "17";
    assert AllDigits(Octal, "17");
    assert DigitValues(Octal, "17") == [1, 7];
    assert [1, 7][..1] == [1];
    assert PositionalValue(8, [1, 7]) == 15;
    DivUnique(15, Uint64Modulus, 0, 15);
    assert ParseOctalInteger("017") == Success(15);
  }

  /** A lone `0` is parsed as decimal and is the `int` 0. */
  lemma ZeroExample()
    ensures ParseIntegerLiteral(LP64, "0") == Success(TypedValue(Int, 0))
  {
    assert DigitValues(Decimal, "0") == [0];
    DivUnique(0, Uint64Modulus, 0, 0);
    assert ParseDecimalInteger("0") == Success(0);
  }

  /** Character sequences outside the grammar: a prefix without digits, a
      non-octal digit behind `0`, a binary literal, a digit separator and the
      empty sequence. */
  lemma RejectedExamples()
    ensures ParseIntegerLiteral(LP64, "0x") == Failure(InvalidDigits(Octal))
    ensures ParseIntegerLiteral(LP64, "08") == Failure(InvalidDigits(Octal))
    ensures ParseIntegerLiteral(LP64, "0b1") == Failure(InvalidDigits(Octal))
    ensures ParseIntegerLiteral(LP64, "1'000") == Failure(InvalidDigits(Decimal))
    ensures ParseIntegerLiteral(LP64, "") == Failure(MissingDigits(Decimal))
  {
  }
}
