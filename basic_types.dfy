/**
 * The scalar vocabulary shared by the recording library and the search:
 * C type tags, operator codes, the `Value_t` record and the per-type tables.
 * Sizes are those of the x86-64 (LP64) target the tables are built for.
 */
module BasicTypes {
  import opened Wrappers
  import Arith

  type Byte = x: int | 0 <= x < 0x100
  type Int32 = x: int | -0x8000_0000 <= x < 0x8000_0000
  type UInt32 = x: int | 0 <= x < 0x1_0000_0000
  type Int64 = x: int | -0x8000_0000_0000_0000 <= x < 0x8000_0000_0000_0000
  type UInt64 = x: int | 0 <= x < 0x1_0000_0000_0000_0000

  const TWO_64: int := 0x1_0000_0000_0000_0000

  /** C's conversion of an integer to `long long`: keep the low 64 bits, read them as two's complement. */
  function ToInt64(x: int): (r: Int64)
    ensures -0x8000_0000_0000_0000 <= x < 0x8000_0000_0000_0000 ==> r == x
    ensures x == TWO_64 - 1 ==> r == -1
  {
    var m := x % TWO_64;
    if m < 0x8000_0000_0000_0000 then m else m - TWO_64
  }

  /** Reading a `long long` as `unsigned long long`. */
  function ToUInt64(x: int): (r: UInt64)
    ensures 0 <= x < TWO_64 ==> r == x
    ensures -0x8000_0000_0000_0000 <= x < 0 ==> r == x + TWO_64
  {
    x % TWO_64
  }

  // ---------------------------------------------------------------- type_t

  /** A `type_t` tag other than BOOLEAN: an index into the per-type tables. */
  type TypeTag = t: int | 0 <= t < 19

  const U_CHAR: TypeTag := 0
  const CHAR: TypeTag := 1
  const U_SHORT: TypeTag := 2
  const SHORT: TypeTag := 3
  const U_INT: TypeTag := 4
  const INT: TypeTag := 5
  const U_LONG: TypeTag := 6
  const LONG: TypeTag := 7
  const U_LONG_LONG: TypeTag := 8
  const LONG_LONG: TypeTag := 9
  const STRUCT: TypeTag := 10
  const PTR: TypeTag := 11  // the pointer type tag
  const FLOAT: TypeTag := 12
  const DOUBLE: TypeTag := 13
  const LONG_DOUBLE: TypeTag := 14
  const BITFIELD_CHAR: TypeTag := 15
  const BITFIELD_UNION_SHORT: TypeTag := 16
  const BITFIELD_UNION_INT: TypeTag := 17
  const BITFIELD_UNION_LONGLONG: TypeTag := 18

  predicate IsTypeTag(t: int) {
    0 <= t < 19
  }

  /** `kSizeOfType`: bytes occupied by a value of each type (STRUCT has no fixed size). */
  const kSizeOfType: seq<nat> := [1, 1, 2, 2, 4, 4, 8, 8, 8, 8, 0, 8, 4, 8, 16, 1, 2, 4, 8]

  function SizeOfType(t: TypeTag): nat {
    kSizeOfType[t]
  }

  lemma SizeOfTypeTable()
    ensures |kSizeOfType| == 19
    ensures forall t: TypeTag :: SizeOfType(t) == 0 <==> t == STRUCT
    ensures forall t: TypeTag :: SizeOfType(t) <= 16
    ensures SizeOfType(BITFIELD_CHAR) == SizeOfType(U_CHAR)
    ensures SizeOfType(BITFIELD_UNION_SHORT) == SizeOfType(U_SHORT)
    ensures SizeOfType(BITFIELD_UNION_INT) == SizeOfType(U_INT)
    ensures SizeOfType(BITFIELD_UNION_LONGLONG) == SizeOfType(U_LONG_LONG)
  {
  }

  /** `kMinValue`: each type's minimum converted to `long long`; the floating-point minima are tiny positive numbers and truncate to 0. */
  const kMinValue: seq<Int64> := [
    0, ToInt64(-0x80), 0, ToInt64(-0x8000), 0, ToInt64(-0x8000_0000), 0,
    ToInt64(-0x8000_0000_0000_0000), 0, ToInt64(-0x8000_0000_0000_0000),
    0, 0, 0, 0, 0, 0, 0, 0, 0]

  /**
   * `kMaxValue`: each type's maximum converted to `long long`. The unsigned
   * 64-bit maxima do not fit and wrap around; converting the floating-point
   * maxima is undefined in C++, which the table shows as None.
   */
  const kMaxValue: seq<Option<Int64>> := [
    Some(0xFF), Some(0x7F), Some(0xFFFF), Some(0x7FFF),
    Some(0xFFFF_FFFF), Some(0x7FFF_FFFF),
    Some(ToInt64(TWO_64 - 1)), Some(0x7FFF_FFFF_FFFF_FFFF),
    Some(ToInt64(TWO_64 - 1)), Some(0x7FFF_FFFF_FFFF_FFFF),
    Some(0), Some(ToInt64(TWO_64 - 1)),
    None, None, None,
    Some(0xFF), Some(0xFFFF), Some(0xFFFF_FFFF), Some(ToInt64(TWO_64 - 1))]

  /**
   * The range [kMinValue[t], kMaxValue[t]] is non-empty exactly for the types
   * whose maximum fits in a `long long`: it is empty for the four unsigned
   * 64-bit types, whose maximum wraps to -1.
   */
  lemma MinMaxRange(t: TypeTag)
    requires kMaxValue[t].Some?
    ensures kMinValue[t] <= kMaxValue[t].value <==>
      t !in {U_LONG, U_LONG_LONG, PTR, BITFIELD_UNION_LONGLONG}
    ensures t in {U_LONG, U_LONG_LONG, PTR, BITFIELD_UNION_LONGLONG} ==> kMaxValue[t].value == -1
  {
  }

  // ------------------------------------------------------------- operators

  type CompareOp = x: int | 0 <= x < 10

  const EQ: CompareOp := 0
  const NEQ: CompareOp := 1
  const GT: CompareOp := 2
  const LE: CompareOp := 3
  const LT: CompareOp := 4
  const GE: CompareOp := 5
  const S_GT: CompareOp := 6
  const S_LE: CompareOp := 7
  const S_LT: CompareOp := 8
  const S_GE: CompareOp := 9

  const ADD: Byte := 0
  const SUBTRACT: Byte := 1
  const MULTIPLY: Byte := 2
  const DIV: Byte := 3
  const S_DIV: Byte := 4
  const MOD: Byte := 5
  const S_MOD: Byte := 6
  const SHIFT_L: Byte := 7
  const SHIFT_R: Byte := 8
  const S_SHIFT_R: Byte := 9
  const BITWISE_AND: Byte := 10
  const BITWISE_OR: Byte := 11
  const BITWISE_XOR: Byte := 12
  const CONCAT: Byte := 13
  const EXTRACT: Byte := 14
  const CONCRETE: Byte := 15

  const ADD_PI: Byte := 0
  const S_ADD_PI: Byte := 1
  const SUBTRACT_PI: Byte := 2
  const S_SUBTRACT_PI: Byte := 3
  const SUBTRACT_PP: Byte := 4

  const NEGATE: Byte := 0
  const LOGICAL_NOT: Byte := 1
  const BITWISE_NOT: Byte := 2
  const UNSIGNED_CAST: Byte := 3
  const SIGNED_CAST: Byte := 4

  /** Branch-id sentinels that mark a function call and a return in a recorded path. */
  const kCallId: int := -1
  const kReturnId: int := -2

  /** The comparison flipped by toggling the lowest bit of its code. */
  function NegateCompareOp(op: CompareOp): (r: CompareOp)
    ensures r != op && r / 2 == op / 2
  {
    ((op as bv8) ^ 1) as int
  }

  /**
   * What each comparison means on two `w`-bit patterns `x` and `y`
   * (unsigned for GT..GE, two's complement for the S_ forms).
   */
  function Signed(x: int, w: nat): int {
    if w > 0 && x >= Arith.Pow2(w - 1) then x - Arith.Pow2(w) else x
  }

  predicate CompareHolds(op: CompareOp, x: int, y: int, w: nat) {
    var sx, sy := Signed(x, w), Signed(y, w);
    if op == EQ then x == y
    else if op == NEQ then x != y
    else if op == GT then x > y
    else if op == LE then x <= y
    else if op == LT then x < y
    else if op == GE then x >= y
    else if op == S_GT then sx > sy
    else if op == S_LE then sx <= sy
    else if op == S_LT then sx < sy
    else sx >= sy
  }

  /** The negated comparison holds exactly when the original does not, and negating twice is the identity. */
  lemma NegateCompareOpMeaning(op: CompareOp, x: int, y: int, w: nat)
    ensures CompareHolds(NegateCompareOp(op), x, y, w) == !CompareHolds(op, x, y, w)
    ensures NegateCompareOp(NegateCompareOp(op)) == op
  {
  }

  /** The pairs the negation produces: ==/!=, >/<=, </>=, and the signed forms. */
  lemma NegateCompareOpPairs()
    ensures NegateCompareOp(EQ) == NEQ && NegateCompareOp(GT) == LE && NegateCompareOp(LT) == GE
    ensures NegateCompareOp(S_GT) == S_LE && NegateCompareOp(S_LT) == S_GE
  {
  }

  // ------------------------------------------------------------------ Value_t

  /**
   * `Value_t`: the concrete value of a C scalar. `floating` holds the raw bits
   * of the `double`; no floating-point arithmetic is modelled.
   */
  datatype Value = Value(integral: Int64, floating: UInt64, ty: Int32)

  /** `Value_t()`: integral 0, floating 0.0, type STRUCT. */
  const DefaultValue: Value := Value(0, 0, STRUCT)

  /** Raw bits of the `double` 1.0, as stored by `(double)1`. */
  const DOUBLE_ONE: UInt64 := 0x3FF0_0000_0000_0000
}
