/** The C++ integer kinds a parsed literal can be narrowed to
    (constant.hpp, `narrow_decimal_integer` and `narrow_nondecimal_integer`).

    Widths differ between platforms, so the largest value of each signed kind
    is a parameter (`DataModel`); each unsigned kind has the width of its
    signed counterpart. `LP64` is the common 64-bit Unix data model. */
module IntKinds {
  import opened CppInt

  const Uint64Modulus: nat := 0x1_0000_0000_0000_0000

  /** `std::uint64_t`. */
  type Uint64 = n: int | 0 <= n < Uint64Modulus

  datatype IntKind = Int | UnsignedInt | Long | UnsignedLong | LongLong | UnsignedLongLong {

    predicate IsSigned() {
      this == Int || this == Long || this == LongLong
    }
  }

  /** The largest `int`, `long` and `long long` of a platform. */
  datatype DataModel = DataModel(intMax: nat, longMax: nat, longLongMax: nat) {

    /** The minimum ranges and the ordering the C++ standard guarantees. */
    predicate Valid() {
      && 0x7fff <= intMax <= longMax <= longLongMax
      && 0x7fff_ffff <= longMax
      && 0x7fff_ffff_ffff_ffff <= longLongMax
    }

    /** `std::numeric_limits<k>::max()`. */
    function Max(k: IntKind): nat {
      match k
      case Int => intMax
      case UnsignedInt => 2 * intMax + 1
      case Long => longMax
      case UnsignedLong => 2 * longMax + 1
      case LongLong => longLongMax
      case UnsignedLongLong => 2 * longLongMax + 1
    }

    /** `std::numeric_limits<k>::min()`. */
    function Min(k: IntKind): int {
      if k.IsSigned() then -(Max(k) + 1) else 0
    }

    /** `v` is a value of kind `k`. */
    predicate Holds(k: IntKind, v: int) {
      Min(k) <= v <= Max(k)
    }

    /** The number of values of kind `k`: 2^width on every platform, where
        each maximum is 2^n - 1. */
    function Modulus(k: IntKind): nat {
      Max(k) - Min(k) + 1
    }

    /** `static_cast<k>(v)`: the value of kind `k` congruent to `v` modulo the
        number of values of `k` (C++20 integral conversion). */
    function Convert(k: IntKind, v: int): (r: int)
      ensures Holds(k, r)
      ensures (r - v) % Modulus(k) == 0
      ensures Holds(k, v) ==> r == v
    {
      var m := Modulus(k);
      var w := v % m;
      ModularCast(v, m, Min(k), Max(k));
      if w <= Max(k) then w else w - m
    }
  }

  /** Reducing `v` modulo `m` into the window `[lo, hi]` of `m` consecutive
      integers around zero lands in the window, differs from `v` by a multiple
      of `m`, and keeps values already in the window. */
  lemma ModularCast(v: int, m: int, lo: int, hi: int)
    requires m > 0 && hi - lo + 1 == m && lo <= 0 <= hi
    ensures var w := v % m; lo <= (if w <= hi then w else w - m) <= hi
    ensures var w := v % m; ((if w <= hi then w else w - m) - v) % m == 0
    ensures var w := v % m; lo <= v <= hi ==> (if w <= hi then w else w - m) == v
  {
    DivMod(v, m);
    var q, w := v / m, v % m;
    if w <= hi {
      assert w - v == (-q) * m;
      DivUnique(w - v, m, -q, 0);
    } else {
      assert w - m - v == (-q - 1) * m;
      DivUnique(w - m - v, m, -q - 1, 0);
    }
    if 0 <= v <= hi {
      DivUnique(v, m, 0, v);
    } else if lo <= v < 0 {
      DivUnique(v, m, -1, v + m);
    }
  }

  const LP64: DataModel := DataModel(0x7fff_ffff, 0x7fff_ffff_ffff_ffff, 0x7fff_ffff_ffff_ffff)

  /** The kinds a decimal literal may take, in order of preference. */
  const DecimalKinds: seq<IntKind> := [Int, Long, LongLong]

  /** The kinds an octal or hexadecimal literal may take, in order of preference. */
  const NondecimalKinds: seq<IntKind> := [Int, UnsignedInt, Long, UnsignedLong, LongLong, UnsignedLongLong]

  /** The position of the first kind in `kinds` that holds `v`, or of the last
      kind when none does. */
  function FirstHolding(dm: DataModel, kinds: seq<IntKind>, v: int): (i: nat)
    requires |kinds| > 0
    ensures i < |kinds|
    ensures dm.Holds(kinds[i], v) || i == |kinds| - 1
    ensures forall j :: 0 <= j < i ==> !dm.Holds(kinds[j], v)
  {
    if |kinds| == 1 || dm.Holds(kinds[0], v) then 0
    else 1 + FirstHolding(dm, kinds[1..], v)
  }

  /** `FirstHolding` is the one position before which no kind holds `v` and at
      which a kind holds `v` or the list ends. */
  lemma {:induction false} FirstHoldingIsUnique(dm: DataModel, kinds: seq<IntKind>, v: int, i: nat)
    requires i < |kinds|
    requires dm.Holds(kinds[i], v) || i == |kinds| - 1
    requires forall j :: 0 <= j < i ==> !dm.Holds(kinds[j], v)
    ensures FirstHolding(dm, kinds, v) == i
  {
    if i > 0 {
      FirstHoldingIsUnique(dm, kinds[1..], v, i - 1);
    }
  }

  /** A value together with the integer kind it was narrowed to. */
  datatype TypedValue = TypedValue(kind: IntKind, value: int)

  /** `narrow_decimal_integer<v>()`: the first of `int`, `long`, `long long`
      whose maximum is at least `v`, else `long long`, with `v` cast to it. */
  function NarrowDecimal(dm: DataModel, v: Uint64): (r: TypedValue)
    ensures r.kind == DecimalKinds[FirstHolding(dm, DecimalKinds, v)]
    ensures r.kind.IsSigned()
    ensures dm.Holds(r.kind, r.value)
    ensures (r.value - v) % dm.Modulus(r.kind) == 0
    ensures dm.Holds(r.kind, v) ==> r.value == v
  {
    if v <= dm.Max(Int) then TypedValue(Int, dm.Convert(Int, v))
    else if v <= dm.Max(Long) then TypedValue(Long, dm.Convert(Long, v))
    else TypedValue(LongLong, dm.Convert(LongLong, v))
  }

  /** `narrow_nondecimal_integer<v>()`: the first of `int`, `unsigned`, `long`,
      `unsigned long`, `long long`, `unsigned long long` whose maximum is at
      least `v`. The last one always holds a `uint64_t`, so the value is kept. */
  function NarrowNondecimal(dm: DataModel, v: Uint64): (r: TypedValue)
    requires dm.Valid()
    ensures r.kind == NondecimalKinds[FirstHolding(dm, NondecimalKinds, v)]
    ensures dm.Holds(r.kind, v)
    ensures r.value == v
  {
    var i :=
      if v <= dm.Max(Int) then 0
      else if v <= dm.Max(UnsignedInt) then 1
      else if v <= dm.Max(Long) then 2
      else if v <= dm.Max(UnsignedLong) then 3
      else if v <= dm.Max(LongLong) then 4
      else 5;
    FirstHoldingIsUnique(dm, NondecimalKinds, v, i);
    TypedValue(NondecimalKinds[i], dm.Convert(NondecimalKinds[i], v))
  }

  /** On LP64, 2^32 - 1 is an `unsigned int` when written in octal or
      hexadecimal but a `long` when written in decimal. */
  lemma RadixDecidesKind()
    ensures NarrowNondecimal(LP64, 0xFFFF_FFFF) == TypedValue(UnsignedInt, 0xFFFF_FFFF)
    ensures NarrowDecimal(LP64, 0xFFFF_FFFF) == TypedValue(Long, 0xFFFF_FFFF)
  {
  }

  /** A decimal literal above `LLONG_MAX` is cast to `long long` and wraps: on
      LP64, 9223372036854775808 becomes the `long long` -9223372036854775808. */
  lemma DecimalAboveLongLongWraps()
    ensures LP64.Modulus(Int) == 0x1_0000_0000 && LP64.Modulus(LongLong) == Uint64Modulus
    ensures NarrowDecimal(LP64, 0x8000_0000_0000_0000) == TypedValue(LongLong, -0x8000_0000_0000_0000)
  {
  }
}
