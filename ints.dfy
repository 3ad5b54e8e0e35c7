/** The fixed-width integer types of <cstdint> that the encoder's overloads take, and the two
    pieces of C++ integer semantics the encoder's range checks depend on: conversion between
    integer types, and the usual arithmetic conversions applied to the operands of `<=`. */
module CppIntegers {

  newtype int8 = x: int | -0x80 <= x < 0x80
  newtype uint8 = x: int | 0 <= x < 0x100
  newtype int16 = x: int | -0x8000 <= x < 0x8000
  newtype uint16 = x: int | 0 <= x < 0x1_0000
  newtype int32 = x: int | -0x8000_0000 <= x < 0x8000_0000
  newtype uint32 = x: int | 0 <= x < 0x1_0000_0000
  newtype int64 = x: int | -0x8000_0000_0000_0000 <= x < 0x8000_0000_0000_0000
  newtype uint64 = x: int | 0 <= x < 0x1_0000_0000_0000_0000

  /** The integer types by name, so that a type can be passed to a function as a value. */
  datatype IntKind = Int8 | UInt8 | Int16 | UInt16 | Int32 | UInt32 | Int64 | UInt64

  function Bits(k: IntKind): nat {
    match k
    case Int8 | UInt8 => 8
    case Int16 | UInt16 => 16
    case Int32 | UInt32 => 32
    case Int64 | UInt64 => 64
  }

  predicate IsSigned(k: IntKind) {
    k.Int8? || k.Int16? || k.Int32? || k.Int64?
  }

  /** 2^Bits(k): the number of values of the type. */
  function Modulus(k: IntKind): nat {
    match k
    case Int8 | UInt8 => 0x100
    case Int16 | UInt16 => 0x1_0000
    case Int32 | UInt32 => 0x1_0000_0000
    case Int64 | UInt64 => 0x1_0000_0000_0000_0000
  }

  /** `std::numeric_limits<T>::min()` */
  function Min(k: IntKind): int {
    if IsSigned(k) then -(Modulus(k) / 2) else 0
  }

  /** `std::numeric_limits<T>::max()` */
  function Max(k: IntKind): int {
    if IsSigned(k) then Modulus(k) / 2 - 1 else Modulus(k) - 1
  }

  predicate InRange(k: IntKind, v: int) {
    Min(k) <= v <= Max(k)
  }

  /** Integral promotion: every type narrower than `int` is promoted to `int` (here 32 bits). */
  function Promote(k: IntKind): (p: IntKind)
    ensures Bits(p) >= 32
    ensures forall v :: InRange(k, v) ==> InRange(p, v)
  {
    if Bits(k) < 32 then Int32 else k
  }

  /** The common type that the usual arithmetic conversions pick for two promoted operands:
      the wider type when both have the same signedness; otherwise the unsigned type when it is
      at least as wide as the signed one, and the signed type when it is wider (it can then hold
      every value of the unsigned one). */
  function CommonType(a: IntKind, b: IntKind): (c: IntKind)
    ensures c == a || c == b
  {
    if IsSigned(a) == IsSigned(b) then (if Bits(a) >= Bits(b) then a else b)
    else
      var (u, s) := if IsSigned(a) then (b, a) else (a, b);
      if Bits(u) >= Bits(s) then u else s
  }

  /** The distance from v to the range of k: what each wrap of Convert reduces. */
  function Distance(k: IntKind, v: int): int {
    if v < Min(k) then Min(k) - v else v - Max(k)
  }

  /** Conversion of v to type k: the unique value of k congruent to v modulo 2^Bits(k), which is
      what C++20 defines for every integral conversion. Stated as repeated wrapping by
      2^Bits(k) until the value is in range. */
  function Convert(k: IntKind, v: int): (r: int)
    ensures InRange(k, r)
    ensures InRange(k, v) ==> r == v
    decreases Distance(k, v)
  {
    if InRange(k, v) then v
    else if v < Min(k) then Convert(k, v + Modulus(k))
    else Convert(k, v - Modulus(k))
  }

  /** `static_cast` to the three parameter types of the Writer's integer methods. */
  function ToUInt8(v: int): uint8 {
    Convert(UInt8, v) as uint8
  }

  function ToInt32(v: int): int32 {
    Convert(Int32, v) as int32
  }

  function ToUInt64(v: int): uint64 {
    Convert(UInt64, v) as uint64
  }

  /** One more wrap adds one more multiple of the modulus. */
  lemma ShiftMultiple(c: int, v: int, m: int, q: int)
    ensures c == v + m + q * m ==> c == v + (q + 1) * m
    ensures c == (v - m) + q * m ==> c == v + (q - 1) * m
  {
  }

  /** The converted value differs from v by a whole number of moduli: conversion preserves
      the value modulo 2^Bits(k). */
  lemma {:induction false} ConvertCongruent(k: IntKind, v: int) returns (q: int)
    ensures Convert(k, v) == v + q * Modulus(k)
    decreases Distance(k, v), 1
  {
    if InRange(k, v) {
      q := 0;
    } else if v < Min(k) {
      q := CongruentBelow(k, v);
    } else {
      q := CongruentAbove(k, v);
    }
  }

  lemma {:induction false} CongruentBelow(k: IntKind, v: int) returns (q: int)
    requires v < Min(k)
    ensures Convert(k, v) == v + q * Modulus(k)
    decreases Distance(k, v), 0
  {
    var m := Modulus(k);
    var q' := ConvertCongruent(k, v + m);
    var c := Convert(k, v + m);
    assert Convert(k, v) == c;
    ShiftMultiple(c, v, m, q');
    q := q' + 1;
  }

  lemma {:induction false} CongruentAbove(k: IntKind, v: int) returns (q: int)
    requires v > Max(k)
    ensures Convert(k, v) == v + q * Modulus(k)
    decreases Distance(k, v), 0
  {
    var m := Modulus(k);
    var q' := ConvertCongruent(k, v - m);
    var c := Convert(k, v - m);
    assert Convert(k, v) == c;
    ShiftMultiple(c, v, m, q');
    q := q' - 1;
  }

  /** A value at most one modulus outside the range is wrapped exactly once. */
  lemma ConvertWrapsOnce(k: IntKind, v: int)
    requires Min(k) - Modulus(k) <= v <= Max(k) + Modulus(k)
    ensures Convert(k, v) == if v < Min(k) then v + Modulus(k) else if v > Max(k) then v - Modulus(k) else v
  {
  }

  /** Reinterpreting an `int64_t` as `uint64_t` adds 2^64 to a negative value. */
  lemma Int64AsUInt64(x: int)
    requires InRange(Int64, x)
    ensures ToUInt64(x) as int == if x < 0 then x + 0x1_0000_0000_0000_0000 else x
  {
    ConvertWrapsOnce(UInt64, x);
  }

  /** The built-in `x <= y` for x of type kx and y of type ky: both operands are promoted and
      converted to their common type, and the converted values are compared. */
  function LessEqual(x: int, kx: IntKind, y: int, ky: IntKind): bool
    requires InRange(kx, x) && InRange(ky, y)
  {
    var c := CommonType(Promote(kx), Promote(ky));
    Convert(c, x) <= Convert(c, y)
  }

  /** The comparison is the mathematical one whenever both operands are values of the common
      type, which holds in particular when the two types have the same signedness. */
  lemma LessEqualIsExact(x: int, kx: IntKind, y: int, ky: IntKind)
    requires InRange(kx, x) && InRange(ky, y)
    requires var c := CommonType(Promote(kx), Promote(ky)); InRange(c, x) && InRange(c, y)
    ensures LessEqual(x, kx, y, ky) <==> x <= y
  {
  }

  /** Mixing a negative signed operand with an unsigned operand of at least the same width
      compares the operand's two's-complement reinterpretation: the negative value is then
      larger than every value of the signed type. */
  lemma NegativeAgainstUnsignedWraps(x: int, kx: IntKind, y: int, ky: IntKind)
    requires InRange(kx, x) && InRange(ky, y) && x < 0
    requires !IsSigned(ky) && Bits(ky) >= 32 && Bits(ky) >= Bits(kx)
    ensures LessEqual(x, kx, y, ky) <==> x + Modulus(ky) <= y
  {
    var c := CommonType(Promote(kx), Promote(ky));
    assert c == ky;
    assert Convert(c, x) == x + Modulus(ky);
  }

  /** A signed 32-bit value survives the round trip through its unsigned pattern ... */
  lemma Int32PatternRoundTrip(i: int)
    requires InRange(Int32, i)
    ensures Convert(Int32, Convert(UInt32, i)) == i
  {
  }

  /** ... and so does every unsigned 32-bit pattern through the signed value it stands for. */
  lemma UInt32PatternRoundTrip(u: int)
    requires InRange(UInt32, u)
    ensures Convert(UInt32, Convert(Int32, u)) == u
  {
  }
}
