/**
 * `SymbolicExprWriterFactory`: the recording library's single-node
 * constructors. Each takes the id counter's value and returns the node
 * together with the counter after it; operands are passed in already built,
 * so only the new nodes take ids.
 */
module WriterFactory {
  import opened BasicTypes
  import opened Arith
  import opened Exprs

  /** `kSizeOfType[val.type]`, the size every typed node gets. */
  function TypeSize(val: Value): (n: UInt64)
    requires IsTypeTag(val.ty)
    ensures n == kSizeOfType[val.ty] && n <= 16
    ensures n == 0 <==> val.ty == STRUCT
  {
    SizeOfTypeTable();
    kSizeOfType[val.ty]
  }

  /**
   * The integral value of a concatenation: the high part shifted left by the
   * width of the low part, plus the low part, kept to 64 bits.
   */
  function ConcatValue(hi: Int64, loSize: nat, lo: Int64): (r: Int64)
    ensures 0 <= lo && 0 <= hi && hi * Pow2(8 * loSize) + lo < 0x8000_0000_0000_0000 ==>
      r == hi * Pow2(8 * loSize) + lo
  {
    var p := Pow2(8 * loSize);
    if 0 <= hi then MulAtLeast(hi, 0, p); ToInt64(hi * p + lo) else ToInt64(hi * p + lo)
  }

  /**
   * Bytes `i .. i + n - 1` (least significant first) of `v`:
   * `(v >> 8i) & ((1 << 8n) - 1)` with the mask as wide as the bytes it keeps.
   */
  function ExtractValue(v: Int64, i: nat, n: nat): (r: Int64)
    ensures n < 8 ==> 0 <= r < Pow2(8 * n)
  {
    var bytes := (v / Pow2(8 * i)) % Pow2(8 * n);
    if n < 8 then
      Pow2Monotone(8 * n, 56);
      Pow2Below63();
      bytes
    else
      ToInt64(bytes)
  }

  /**
   * `ExtractValue` as the source computes it: `1 << (8*n)` is shifted as a
   * 32-bit `int`, whose shift count the x86 shift instruction reduces modulo
   * 32, so for `n == 4` (and `n == 8`) the mask is 0.
   */
  function ExtractValueAsWritten(v: Int64, i: nat, n: nat): (r: Int64)
    ensures 0 <= r < Pow2(24)
  {
    var w := 8 * (n % 4);  // (8 * n) % 32
    Pow2Monotone(w, 24);
    Pow2Monotone(24, 56);
    Pow2Below63();
    (v / Pow2(8 * i)) % Pow2(w)
  }

  lemma Pow2Below63()
    ensures Pow2(56) < 0x8000_0000_0000_0000
  {
    Pow2Values();
    Pow2Add(56, 8);
  }

  /** A four-byte extract of the value 1 gives 0 as written, and 1 as intended. */
  lemma ExtractMaskDropsBytes()
    ensures ExtractValueAsWritten(1, 0, 4) == 0
    ensures ExtractValue(1, 0, 4) == 1
  {
    Pow2Values();
    Pow2Add(16, 16);
    assert Pow2(0) == 1;
  }

  /**
   * Extracting `k` bytes at `i` and the next `m` bytes above them and
   * concatenating the two gives the `k + m` bytes at `i`: the pieces a memory
   * read assembles add up to the bytes it covers.
   */
  lemma ConcatExtract(v: Int64, i: nat, k: nat, m: nat)
    requires 1 <= k && 1 <= m && k + m <= 8
    ensures ConcatValue(ExtractValue(v, i + k, m), k, ExtractValue(v, i, k)) == ExtractValue(v, i, k + m)
  {
    var w := v / Pow2(8 * i);
    var p, q := Pow2(8 * k), Pow2(8 * m);
    assert Pow2(8 * (i + k)) == Pow2(8 * i) * p by { Pow2Add(8 * i, 8 * k); }
    assert Pow2(8 * (k + m)) == p * q by { Pow2Add(8 * k, 8 * m); }
    ModMul(v, Pow2(8 * i), p);
    ModMul(w, p, q);
    var hi, lo := (w / p) % q, w % p;
    assert ExtractValue(v, i + k, m) == hi;
    assert ExtractValue(v, i, k) == lo;
    assert hi * p + lo == w % (p * q);
    Pow2Values();
    Pow2Add(8 * k + 8 * m, 64 - 8 * k - 8 * m);
    assert w % (p * q) < TWO_64 by { Pow2Monotone(8 * (k + m), 64); }
  }

  /** The eight bytes at offset 0 are the whole value. */
  lemma ExtractWhole(v: Int64)
    ensures ExtractValue(v, 0, 8) == v
  {
    assert Pow2(64) == TWO_64 by { Pow2Values(); }
    assert v / Pow2(0) == v;
    if v < 0 {
      DivModUnique(v, -1, v + TWO_64, TWO_64);
    } else {
      DivModUnique(v, 0, v, TWO_64);
    }
  }

  /** `NewConcreteExpr(val)`: a constant of the value's type size. */
  function NewConcreteExpr(val: Value, next: nat): (r: Numbered)
    requires IsTypeTag(val.ty)
    ensures r.expr.Const? && r.expr.value == val && r.expr.size == kSizeOfType[val.ty]
    ensures NumberedFrom(r.expr, next) && r.next == next + Count(r.expr)
  {
    Numbered(Const(val, TypeSize(val), Fresh(next)), next + 1)
  }

  /** `NewConcreteExpr(size, val)`: a constant of an explicit size. */
  function NewConcreteExprSized(size: UInt64, val: Value, next: nat): (r: Numbered)
    ensures r.expr.Const? && r.expr.value == val && r.expr.size == size
    ensures NumberedFrom(r.expr, next) && r.next == next + Count(r.expr)
  {
    Numbered(Const(val, size, Fresh(next)), next + 1)
  }

  function NewUnaryExprWriter(val: Value, op: Byte, e: Expr, next: nat): (r: Numbered)
    requires IsTypeTag(val.ty)
    ensures r.expr.Unary? && r.expr.child == e && r.expr.un == op
    ensures r.expr.value == val && r.expr.size == kSizeOfType[val.ty]
    ensures r.expr.id == Fresh(next) && r.next == next + 1
  {
    Numbered(Unary(val, TypeSize(val), Fresh(next), op, e), next + 1)
  }

  function NewBinExprWriter(val: Value, op: Byte, e1: Expr, e2: Expr, next: nat): (r: Numbered)
    requires IsTypeTag(val.ty)
    ensures r.expr.Binary? && r.expr.left == e1 && r.expr.right == e2 && r.expr.bin == op
    ensures r.expr.value == val && r.expr.size == kSizeOfType[val.ty]
    ensures r.expr.id == Fresh(next) && r.next == next + 1
  {
    Numbered(Binary(val, TypeSize(val), Fresh(next), op, e1, e2), next + 1)
  }

  /** The overload with a concrete right operand: the constant is built first, then the node. */
  function NewBinExprWriterConst(val: Value, op: Byte, e1: Expr, v2: Value, next: nat): (r: Numbered)
    requires IsTypeTag(val.ty) && IsTypeTag(v2.ty)
    ensures r.expr.Binary? && r.expr.left == e1 && r.expr.bin == op
    ensures r.expr.right.Const? && r.expr.right.value == v2 && r.expr.right.size == kSizeOfType[v2.ty]
    ensures r.expr.value == val && r.expr.size == kSizeOfType[val.ty]
    ensures r.expr.right.id == Fresh(next) && r.expr.id == Fresh(next + 1) && r.next == next + 2
  {
    var c := NewConcreteExpr(v2, next);
    NewBinExprWriter(val, op, e1, c.expr, c.next)
  }

  function NewPredExprWriter(val: Value, op: CompareOp, e1: Expr, e2: Expr, next: nat): (r: Numbered)
    requires IsTypeTag(val.ty)
    ensures r.expr.Compare? && r.expr.left == e1 && r.expr.right == e2 && r.expr.cmp == op
    ensures r.expr.value == val && r.expr.size == kSizeOfType[val.ty]
    ensures r.expr.id == Fresh(next) && r.next == next + 1
  {
    Numbered(Compare(val, TypeSize(val), Fresh(next), op, e1, e2), next + 1)
  }

  /**
   * `Concatenate(e1, e2)`: `e1` is the high part. The node stores its
   * children the other way round, low part first.
   */
  function Concatenate(e1: Expr, e2: Expr, next: nat): (r: Numbered)
    ensures r.expr.Binary? && r.expr.bin == CONCAT
    ensures r.expr.left == e2 && r.expr.right == e1
    ensures e1.size + e2.size < TWO_64 ==> r.expr.size == e1.size + e2.size
    ensures r.expr.value == Value(ConcatValue(e1.value.integral, e2.size, e2.value.integral), 0, U_LONG)
    ensures r.expr.id == Fresh(next) && r.next == next + 1
  {
    var val := Value(ConcatValue(e1.value.integral, e2.size, e2.value.integral), 0, U_LONG);
    Numbered(Binary(val, ToUInt64(e1.size + e2.size), Fresh(next), CONCAT, e2, e1), next + 1)
  }

  /** `NewDerefExprWriter`: a read through `addr` of the object's current snapshot. */
  function NewDerefExprWriter(val: Value, managerIdx: UInt64, snapshotIdx: UInt64, addr: Expr, next: nat): (r: Numbered)
    requires IsTypeTag(val.ty)
    ensures r.expr.Deref? && r.expr.addr == addr
    ensures r.expr.managerIdx == managerIdx && r.expr.snapshotIdx == snapshotIdx
    ensures r.expr.value == val && r.expr.size == kSizeOfType[val.ty]
    ensures r.expr.id == Fresh(next) && r.next == next + 1
  {
    Numbered(Deref(val, TypeSize(val), Fresh(next), managerIdx, snapshotIdx, addr), next + 1)
  }

  /**
   * `NewConstDerefExprWriter`: the concrete address becomes a U_LONG
   * constant (built first), whose unsigned reading is the address.
   */
  function NewConstDerefExprWriter(val: Value, managerIdx: UInt64, snapshotIdx: UInt64, addr: UInt64, next: nat): (r: Numbered)
    requires IsTypeTag(val.ty)
    ensures r.expr.Deref? && r.expr.managerIdx == managerIdx && r.expr.snapshotIdx == snapshotIdx
    ensures r.expr.addr.Const? && r.expr.addr.value.ty == U_LONG && r.expr.addr.size == 8
    ensures ToUInt64(r.expr.addr.value.integral) == addr
    ensures r.expr.value == val && r.expr.size == kSizeOfType[val.ty]
    ensures NumberedFrom(r.expr.addr, next) && r.expr.id == Fresh(next + 1) && r.next == next + 2
  {
    var c := NewConcreteExpr(Value(ToInt64(addr), 0, U_LONG), next);
    NewDerefExprWriter(val, managerIdx, snapshotIdx, c.expr, c.next)
  }

  /** `ExtractBytes(size, value, i, n)`: the constant made of bytes `i .. i + n - 1` of a concrete value. */
  function ExtractBytesOfValue(value: Value, i: nat, n: UInt64, next: nat): (r: Numbered)
    ensures r.expr.Const? && r.expr.size == n
    ensures r.expr.value == value.(integral := ExtractValue(value.integral, i, n))
    ensures NumberedFrom(r.expr, next) && r.next == next + 1
  {
    Numbered(Const(value.(integral := ExtractValue(value.integral, i, n)), n, Fresh(next)), next + 1)
  }

  /**
   * `ExtractBytes(e, i, n)`: an EXTRACT node over `e` whose right operand is
   * the U_LONG constant `i` (built first); its value is those bytes of `e`'s.
   */
  function ExtractBytes(e: Expr, i: UInt64, n: UInt64, next: nat): (r: Numbered)
    ensures r.expr.Binary? && r.expr.bin == EXTRACT && r.expr.left == e && r.expr.size == n
    ensures r.expr.right.Const? && r.expr.right.value.ty == U_LONG && ToUInt64(r.expr.right.value.integral) == i
    ensures r.expr.value == Value(ExtractValue(e.value.integral, i, n), 0, U_LONG)
    ensures NumberedFrom(r.expr.right, next) && r.expr.id == Fresh(next + 1) && r.next == next + 2
  {
    var c := NewConcreteExpr(Value(ToInt64(i), 0, U_LONG), next);
    var val := Value(ExtractValue(e.value.integral, i, n), 0, U_LONG);
    Numbered(Binary(val, n, Fresh(c.next), EXTRACT, e, c.expr), c.next + 1)
  }

  /** The byte offset the EXTRACT lowering reads, as an unsigned number, from a node's right operand. */
  function ExtractOffset(e: Expr): (i: UInt64)
    requires e.Binary?
  {
    ToUInt64(e.right.value.integral)
  }

  /** The writer's EXTRACT node carries the offset where the lowering looks for it. */
  lemma ExtractBytesOffset(e: Expr, i: UInt64, n: UInt64, next: nat)
    ensures ExtractOffset(ExtractBytes(e, i, n, next).expr) == i
  {
  }
}

/**
 * `SymbolicExprFactory`: the search's constructors, used when the search
 * rebuilds memory reads. They mirror the recording side without the id
 * counter; nodes the search builds get id 0.
 */
module SearchFactory {
  import opened BasicTypes
  import opened Exprs
  import W = WriterFactory

  function NewConcreteExpr(val: Value): (r: Expr)
    requires IsTypeTag(val.ty)
    ensures r.Const? && r.value == val && r.size == kSizeOfType[val.ty]
  {
    Const(val, W.TypeSize(val), 0)
  }

  function NewConcreteExprSized(size: UInt64, val: Value): (r: Expr)
    ensures r.Const? && r.value == val && r.size == size
  {
    Const(val, size, 0)
  }

  function NewUnaryExpr(val: Value, op: Byte, e: Expr): (r: Expr)
    requires IsTypeTag(val.ty)
    ensures r.Unary? && r.child == e && r.un == op && r.value == val && r.size == kSizeOfType[val.ty]
  {
    Unary(val, W.TypeSize(val), 0, op, e)
  }

  function NewBinExpr(val: Value, op: Byte, e1: Expr, e2: Expr): (r: Expr)
    requires IsTypeTag(val.ty)
    ensures r.Binary? && r.left == e1 && r.right == e2 && r.bin == op
    ensures r.value == val && r.size == kSizeOfType[val.ty]
  {
    Binary(val, W.TypeSize(val), 0, op, e1, e2)
  }

  function NewBinExprConst(val: Value, op: Byte, e1: Expr, v2: Value): (r: Expr)
    requires IsTypeTag(val.ty) && IsTypeTag(v2.ty)
    ensures r.Binary? && r.left == e1 && r.bin == op && r.right == NewConcreteExpr(v2)
    ensures r.value == val && r.size == kSizeOfType[val.ty]
  {
    NewBinExpr(val, op, e1, NewConcreteExpr(v2))
  }

  function NewPredExpr(val: Value, op: CompareOp, e1: Expr, e2: Expr): (r: Expr)
    requires IsTypeTag(val.ty)
    ensures r.Compare? && r.left == e1 && r.right == e2 && r.cmp == op
    ensures r.value == val && r.size == kSizeOfType[val.ty]
  {
    Compare(val, W.TypeSize(val), 0, op, e1, e2)
  }

  function Concatenate(e1: Expr, e2: Expr): (r: Expr)
    ensures r.Binary? && r.bin == CONCAT && r.left == e2 && r.right == e1
    ensures e1.size + e2.size < TWO_64 ==> r.size == e1.size + e2.size
  {
    var val := Value(W.ConcatValue(e1.value.integral, e2.size, e2.value.integral), 0, U_LONG);
    Binary(val, ToUInt64(e1.size + e2.size), 0, CONCAT, e2, e1)
  }

  /** Size, value and child order agree with the recording side's `Concatenate`; only ids differ. */
  lemma ConcatenateMatchesWriter(e1: Expr, e2: Expr, next: nat)
    ensures Strip(Concatenate(e1, e2)) == Strip(W.Concatenate(e1, e2, next).expr)
  {
  }

  /** Stripping the ids of a concatenation strips those of its operands. */
  lemma ConcatenateStrip(e1: Expr, e2: Expr)
    ensures Strip(Concatenate(e1, e2)) == Concatenate(Strip(e1), Strip(e2))
  {
  }

  function ExtractBytesOfValue(value: Value, i: nat, n: UInt64): (r: Expr)
    ensures r.Const? && r.size == n
    ensures r.value == value.(integral := W.ExtractValue(value.integral, i, n))
  {
    Const(value.(integral := W.ExtractValue(value.integral, i, n)), n, 0)
  }

  /**
   * `ExtractBytes(e, i, n)` as the search writes it: the right operand is a
   * constant holding the extracted VALUE, not the offset `i`, and that value
   * is masked with the 32-bit `1 << (8*n)` of `W.ExtractValueAsWritten`.
   */
  function ExtractBytesAsWritten(e: Expr, i: UInt64, n: UInt64): (r: Expr)
    ensures r.Binary? && r.bin == EXTRACT && r.left == e && r.size == n
    ensures r.right.value == r.value
  {
    var val := Value(W.ExtractValueAsWritten(e.value.integral, i, n), 0, U_LONG);
    Binary(val, n, 0, EXTRACT, e, NewConcreteExpr(val))
  }

  /**
   * A two-byte value 0x1234 read at byte 1: the lowering finds offset 0x12
   * in the right operand instead of 1.
   */
  lemma ExtractBytesLosesOffset()
    ensures var e := Const(Value(0x1234, 0, U_SHORT), 2, 0);
      W.ExtractOffset(ExtractBytesAsWritten(e, 1, 1)) == 0x12 &&
      W.ExtractOffset(ExtractBytes(e, 1, 1)) == 1
  {
    assert W.ExtractValueAsWritten(0x1234, 1, 1) == 0x12 by {
      assert Arith.Pow2(8) == 0x100 by { Arith.Pow2Values(); }
      assert 0x1234 / 0x100 == 0x12;
    }
  }

  /** `ExtractBytes(e, i, n)` with the offset in the right operand, as on the recording side. */
  function ExtractBytes(e: Expr, i: UInt64, n: UInt64): (r: Expr)
    ensures r.Binary? && r.bin == EXTRACT && r.left == e && r.size == n
    ensures W.ExtractOffset(r) == i
  {
    var val := Value(W.ExtractValue(e.value.integral, i, n), 0, U_LONG);
    Binary(val, n, 0, EXTRACT, e, NewConcreteExpr(Value(ToInt64(i), 0, U_LONG)))
  }

  /** The corrected search-side EXTRACT node is the recording side's, ids apart. */
  lemma ExtractBytesMatchesWriter(e: Expr, i: UInt64, n: UInt64, next: nat)
    ensures Strip(ExtractBytes(e, i, n)) == Strip(W.ExtractBytes(e, i, n, next).expr)
  {
  }
}
