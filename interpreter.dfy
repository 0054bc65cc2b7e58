/**
 * `SymbolicInterpreter`: the stack machine the instrumented program drives.
 * Each instrumented instruction pushes, combines or pops stack elements. An
 * element carries a concrete value and, when that value depends on the
 * inputs, the expression tree that computes it. Loads and stores go through
 * the byte-slot memory, or through the object tracker for tracked heap
 * regions. Branches are logged to the path, and every new input is recorded
 * in the execution.
 */
module Interpreter {
  import opened Wrappers
  import opened BasicTypes
  import opened Exprs
  import Arith
  import F = WriterFactory
  import MW = MemoryWriter
  import SO = SymbolicObject
  import OT = ObjectTracker
  import PW = PathWriter
  import BitFields

  type Mem = map<nat, seq<MW.Slot>>

  /** `StackElem`: a concrete value, its type, and its expression (`None` for a concrete value). */
  datatype StackElem = StackElem(concrete: Int64, fpConcrete: UInt64, expr: Option<Expr>, ty: TypeTag)

  function ValueOf(se: StackElem): Value {
    Value(se.concrete, se.fpConcrete, se.ty)
  }

  /** The element `PushSymbolic(expr, value)` pushes. */
  function Elem(e: Option<Expr>, v: Value): (se: StackElem)
    requires IsTypeTag(v.ty)
    ensures ValueOf(se) == v && se.expr == e
  {
    StackElem(v.integral, v.floating, e, v.ty)
  }

  /** A symbolic element: it has an expression, and not a concrete node. */
  predicate Tracks(se: StackElem) {
    se.expr.Some? && !IsConcrete(se.expr.value)
  }

  // ------------------------------------------------------------ operators

  /** An operand as a tree: its own expression, or a new concrete node of its value. */
  function Operand(se: StackElem, next: nat): (r: Numbered)
    ensures se.expr.Some? ==> r == Numbered(se.expr.value, next)
    ensures se.expr.None? ==> r.expr.Const? && r.expr.value == ValueOf(se) && r.next == next + 1
  {
    if se.expr.Some? then Numbered(se.expr.value, next) else F.NewConcreteExpr(ValueOf(se), next)
  }

  /** `x` stands for the element `se`: it is its expression, or a constant of its value. */
  predicate Stands(x: Expr, se: StackElem) {
    if se.expr.Some? then x == se.expr.value else x.Const? && x.value == ValueOf(se)
  }

  /** Ids a binary node over `a` and `b` consumes: one for the node, one per constant operand. */
  function Cost(a: StackElem, b: StackElem): nat {
    if a.expr.None? && b.expr.None? then 0
    else if a.expr.None? || b.expr.None? then 2
    else 1
  }

  /**
   * `ApplyBinaryOp`: the two top elements, `a` below `b`, become one element
   * holding `value`. It is symbolic iff either operand was and the operation
   * is not `CONCRETE`; its tree applies `op` to both operands. The nodes are
   * built, and their ids taken, even when `CONCRETE` then drops them.
   */
  function BinaryResult(a: StackElem, b: StackElem, op: Byte, value: Value, next: nat): (r: (StackElem, nat))
    requires IsTypeTag(value.ty)
    ensures ValueOf(r.0) == value && r.1 == next + Cost(a, b)
    ensures r.0.expr.Some? <==> (a.expr.Some? || b.expr.Some?) && op != CONCRETE
    ensures r.0.expr.Some? ==>
      var e := r.0.expr.value;
      e.Binary? && e.bin == op && e.value == value && Stands(e.left, a) && Stands(e.right, b)
  {
    if a.expr.None? && b.expr.None? then (Elem(None, value), next)
    else
      var x := Operand(a, next);
      var y := Operand(b, x.next);
      var n := F.NewBinExprWriter(value, op, x.expr, y.expr, y.next);
      (Elem(if op == CONCRETE then None else Some(n.expr), value), n.next)
  }

  /**
   * `ApplyCompareOp`: as a binary operation, with a comparison node and no
   * `CONCRETE` case: the result is symbolic iff either operand was.
   */
  function CompareResult(a: StackElem, b: StackElem, op: CompareOp, value: Value, next: nat): (r: (StackElem, nat))
    requires IsTypeTag(value.ty)
    ensures ValueOf(r.0) == value && r.1 == next + Cost(a, b)
    ensures r.0.expr.Some? <==> a.expr.Some? || b.expr.Some?
    ensures r.0.expr.Some? ==>
      var e := r.0.expr.value;
      e.Compare? && e.cmp == op && e.value == value && Stands(e.left, a) && Stands(e.right, b)
  {
    if a.expr.None? && b.expr.None? then (Elem(None, value), next)
    else
      var x := Operand(a, next);
      var y := Operand(b, x.next);
      var n := F.NewPredExprWriter(value, op, x.expr, y.expr, y.next);
      (Elem(Some(n.expr), value), n.next)
  }

  /** `ApplyUnaryOp`: the top element takes `value`, and a symbolic one is wrapped in the operation. */
  function UnaryResult(se: StackElem, op: Byte, value: Value, next: nat): (r: (StackElem, nat))
    requires IsTypeTag(value.ty)
    ensures ValueOf(r.0) == value
    ensures r.0.expr.Some? <==> se.expr.Some?
    ensures se.expr.Some? ==>
      var e := r.0.expr.value;
      e.Unary? && e.un == op && e.child == se.expr.value && e.value == value && r.1 == next + 1
    ensures se.expr.None? ==> r.1 == next
  {
    if se.expr.None? then (Elem(None, value), next)
    else
      var n := F.NewUnaryExprWriter(value, op, se.expr.value, next);
      (Elem(Some(n.expr), value), n.next)
  }

  // ------------------------------------------------------- pointer arithmetic

  /** The type pointer arithmetic computes in: `long` if signed, `unsigned long` if not. */
  function LongType(isSigned: bool): (ty: TypeTag)
    ensures kSizeOfType[ty] == 8
  {
    if isSigned then LONG else U_LONG
  }

  /**
   * `ScaleUpBy(isSigned, size)`: the top element is multiplied by `size` in
   * `long` or `unsigned long`. A symbolic element narrower than 8 bytes is
   * first cast to 8 bytes; its tree becomes a multiplication by the
   * constant `size`.
   */
  function ScaleUp(b: StackElem, isSigned: bool, size: UInt64, next: nat): (r: (StackElem, nat))
    ensures r.0.ty == LongType(isSigned) && r.0.concrete == ToInt64(b.concrete * size)
    ensures r.0.fpConcrete == b.fpConcrete
    ensures r.0.expr.Some? <==> b.expr.Some?
    ensures b.expr.None? ==> r.1 == next
    ensures b.expr.Some? ==>
      var m := r.0.expr.value;
      var e := b.expr.value;
      m.Binary? && m.bin == MULTIPLY && m.right.Const? &&
      m.right.value == Value(ToInt64(size), 0, LongType(isSigned)) &&
      (e.size == 8 ==> m.left == e) &&
      (e.size != 8 ==>
        m.left.Unary? && m.left.child == e && m.left.size == 8 &&
        m.left.un == (if isSigned then SIGNED_CAST else UNSIGNED_CAST))
  {
    var ty := LongType(isSigned);
    var scaled := ToInt64(b.concrete * size);
    if b.expr.None? then (b.(concrete := scaled, ty := ty), next)
    else
      var e := b.expr.value;
      var c := if e.size != kSizeOfType[ty]
        then F.NewUnaryExprWriter(Value(b.concrete, 0, ty), if isSigned then SIGNED_CAST else UNSIGNED_CAST, e, next)
        else Numbered(e, next);
      var m := F.NewBinExprWriterConst(Value(scaled, 0, ty), MULTIPLY, c.expr, Value(ToInt64(size), 0, ty), c.next);
      (b.(concrete := scaled, ty := ty, expr := Some(m.expr)), m.next)
  }

  /** The number of times 2 divides `n`: what the shift loop of `ApplyBinPtrOp` counts. */
  function TrailingZeros(n: nat): (k: nat)
    requires n > 0
  {
    if n % 2 == 0 then 1 + TrailingZeros(n / 2) else 0
  }

  /** What the shift loop leaves of `n`: its odd part, 1 exactly for a power of two. */
  function OddPart(n: nat): (m: nat)
    requires n > 0
  {
    if n % 2 == 0 then OddPart(n / 2) else n
  }

  /** `n` is its odd part times 2 to the number of trailing zeros. */
  lemma {:induction false} OddPartTimesPow2(n: nat)
    requires n > 0
    ensures OddPart(n) * Arith.Pow2(TrailingZeros(n)) == n && OddPart(n) % 2 == 1
  {
    if n % 2 == 0 {
      OddPartTimesPow2(n / 2);
      Arith.MulAssocComm(OddPart(n / 2), 2, Arith.Pow2(TrailingZeros(n / 2)));
    }
  }

  /** For a power of two, the loop's count is its base-2 logarithm. */
  lemma Log2OfPowerOfTwo(n: nat)
    requires n > 0 && OddPart(n) == 1
    ensures Arith.Pow2(TrailingZeros(n)) == n
  {
    OddPartTimesPow2(n);
  }

  /** A 64-bit size has fewer than 64 trailing zeros. */
  lemma TrailingZerosBelow64(n: UInt64)
    requires n > 0
    ensures TrailingZeros(n) < 64
  {
    OddPartTimesPow2(n);
    if TrailingZeros(n) >= 64 {
      Arith.Pow2Monotone(64, TrailingZeros(n));
      Arith.Pow2Values();
      Arith.MulAtLeast(OddPart(n), Arith.Pow2(TrailingZeros(n)), TWO_64);
    }
  }
  /** The exponent of a 64-bit power of two. */
  function Log2Of(size: UInt64): (k: Int64)
    requires size > 0 && OddPart(size) == 1
    ensures 0 <= k < 64 && Arith.Pow2(k) == size && k == TrailingZeros(size)
  {
    Log2OfPowerOfTwo(size);
    TrailingZerosBelow64(size);
    TrailingZeros(size)
  }


  /** The loop of `ApplyBinPtrOp`: halve `size` while it is even, counting the halvings. */
  method Log2(size: UInt64) returns (log2: UInt64)
    requires size > 0 && OddPart(size) == 1
    ensures log2 == Log2Of(size) && Arith.Pow2(log2) == size
  {
    TrailingZerosBelow64(size);
    log2 := 0;
    var s: nat := size;
    while s % 2 == 0
      invariant 0 < s <= size && log2 + TrailingZeros(s) == TrailingZeros(size)
      invariant OddPart(s) == OddPart(size)
      decreases s
    {
      log2 := log2 + 1;
      s := s / 2;
    }
    assert s == 1;
    Log2OfPowerOfTwo(size);
  }

  /** The pointer operation the source lowers to an addition; every other one is a subtraction. */
  function PtrBinOp(op: Byte): Byte {
    if op == ADD_PI || op == S_ADD_PI then ADD else SUBTRACT
  }

  /**
   * `ApplyBinPtrOp(op, size, value)`: the two top elements become one, of
   * concrete value `value`. A pointer-integer operation first scales the
   * integer by the element size; a pointer-pointer subtraction shifts the
   * difference right by log2 of the size, which must be a power of two.
   * The node built for the addition or subtraction carries `a - b` as its
   * value whatever the operation.
   */
  function PtrResult(a: StackElem, b: StackElem, op: Byte, size: UInt64, value: Int64, next: nat): (r: (StackElem, nat))
    requires op == SUBTRACT_PP && size > 1 && (a.expr.Some? || b.expr.Some?) ==> OddPart(size) == 1
    ensures r.0.concrete == value && r.0.fpConcrete == 0
    ensures r.0.ty == (if op == SUBTRACT_PP then LONG else U_LONG)
    ensures r.0.expr.Some? <==> a.expr.Some? || b.expr.Some?
    ensures a.expr.None? && b.expr.None? ==> r.1 == next
    ensures r.0.expr.Some? && op == SUBTRACT_PP && size > 1 ==>
      var e := r.0.expr.value;
      e.Binary? && e.bin == S_SHIFT_R && e.left.Binary? && e.left.bin == SUBTRACT &&
      Stands(e.left.left, a) && Stands(e.left.right, b) &&
      e.right.Const? && e.right.value.integral >= 0 && Arith.Pow2(e.right.value.integral as nat) == size
    ensures r.0.expr.Some? && op != SUBTRACT_PP ==>
      var e := r.0.expr.value;
      e.Binary? && e.bin == PtrBinOp(op) && Stands(e.left, a) &&
      (size <= 1 ==> Stands(e.right, b)) &&
      (size > 1 && b.expr.Some? ==> e.right.Binary? && e.right.bin == MULTIPLY)
  {
    var ty: TypeTag := if op == SUBTRACT_PP then LONG else U_LONG;
    if a.expr.None? && b.expr.None? then (StackElem(value, 0, None, ty), next)
    else if op == SUBTRACT_PP && size > 1 then PtrDifference(a, b, size, value, next)
    else PtrOffset(a, b, op, size, value, next)
  }

  /** A symbolic pointer-pointer subtraction with an element size above 1. */
  function PtrDifference(a: StackElem, b: StackElem, size: UInt64, value: Int64, next: nat): (r: (StackElem, nat))
    requires (a.expr.Some? || b.expr.Some?) && size > 1 && OddPart(size) == 1
  {
    var d := BinaryResult(a, b, SUBTRACT, Value(ToInt64(a.concrete - b.concrete), 0, LONG), next);
    var sh := F.NewBinExprWriterConst(Value(value, 0, LONG), S_SHIFT_R, d.0.expr.value, Value(Log2Of(size), 0, LONG), d.1);
    (StackElem(value, 0, Some(sh.expr), LONG), sh.next)
  }

  /** Any other symbolic pointer operation: scale the integer, then add or subtract. */
  function PtrOffset(a: StackElem, b: StackElem, op: Byte, size: UInt64, value: Int64, next: nat): (r: (StackElem, nat))
  {
    var ty: TypeTag := if op == SUBTRACT_PP then LONG else U_LONG;
    var s := if op != SUBTRACT_PP && size > 1 then ScaleUp(b, op == S_ADD_PI || op == S_SUBTRACT_PI, size, next) else (b, next);
    var d := BinaryResult(a, s.0, PtrBinOp(op), Value(ToInt64(a.concrete - s.0.concrete), 0, ty), s.1);
    (StackElem(value, 0, d.0.expr, ty), d.1)
  }

  // --------------------------------------------------------------- branches

  /**
   * The constraint `Branch` records for the top element: none for a
   * concrete one; a comparison as it is when the branch went its way, and
   * wrapped in a logical not when it did not; any other tree compared with
   * a zero of its own size, unequal when the branch was taken, equal when
   * it was not.
   */
  function BranchCondition(se: StackElem, pred: bool, next: nat): (r: (Option<Expr>, nat))
    ensures r.0.Some? <==> se.expr.Some?
    ensures se.expr.Some? && se.expr.value.Compare? ==>
      if pred then r.0 == se.expr
      else r.0.value.Unary? && r.0.value.un == LOGICAL_NOT && r.0.value.child == se.expr.value
    ensures se.expr.Some? && !se.expr.value.Compare? ==>
      var c := r.0.value;
      c.Compare? && c.cmp == (if pred then NEQ else EQ) && c.left == se.expr.value &&
      c.right.Const? && c.right.size == se.expr.value.size && c.right.value.integral == 0
  {
    if se.expr.None? then (None, next)
    else
      var e := se.expr.value;
      if e.Compare? then
        if pred then (Some(e), next)
        else
          var n := F.NewUnaryExprWriter(Value(1, DOUBLE_ONE, INT), LOGICAL_NOT, e, next);
          (Some(n.expr), n.next)
      else
        var zero := F.NewConcreteExprSized(e.size, DefaultValue, next);
        var c := F.NewPredExprWriter(Value(1, DOUBLE_ONE, INT), if pred then NEQ else EQ, e, zero.expr, zero.next);
        (Some(c.expr), c.next)
  }

  /**
   * A branch always appends its id to the path and keeps the path valid; it
   * adds a constraint, at the new branch's position, iff the top element
   * was symbolic.
   */
  lemma BranchPath(p: PW.Path, se: StackElem, pred: bool, bid: PW.BranchId, lineno: UInt32, fname: seq<Byte>, next: nat)
    requires PW.Valid(p)
    ensures var r := PW.PushConstraint(p, bid, BranchCondition(se, pred, next).0, lineno, fname);
      PW.Valid(r) && r.branches == p.branches + [bid] &&
      (se.expr.Some? <==> |r.constraints| == |p.constraints| + 1) &&
      (se.expr.None? <==> r.constraints == p.constraints) &&
      (se.expr.Some? ==> r.branches[r.idx[|p.constraints|]] == bid)
  {
    PW.PushConstraintValid(p, bid, BranchCondition(se, pred, next).0, lineno, fname);
  }

  // ----------------------------------------------------------------- sizes

  /**
   * `sizeOfType(ty, val)`: the size of the type, except for a struct, whose
   * concrete value is its size (4 when that is 0).
   */
  function ValueSize(ty: TypeTag, val: Int64): (n: UInt64)
    ensures ty != STRUCT ==> 1 <= n <= 16 && n == kSizeOfType[ty]
    ensures ty == STRUCT ==> n == if val == 0 then 4 else ToUInt64(val)
  {
    SizeOfTypeTable();
    if ty != STRUCT then kSizeOfType[ty]
    else if val != 0 then ToUInt64(val)
    else 4
  }

  // ------------------------------------------------------- loads and stores

  /** What a read hands back: the expression found, if any, the tracker after it, and the id counter. */
  datatype Loaded = Loaded(expr: Option<Expr>, tracker: OT.Tracker, next: nat)

  /**
   * A read of `addr` as `Load` does it: from the object `find(addr)`
   * returns, whose region is then flagged as read, or else from main memory.
   */
  ghost function LoadSpec(t: OT.Tracker, m: Mem, addr: UInt64, val: Value, next: nat): (r: Loaded)
    requires OT.WellFormed(t) && MW.ValidMem(m) && IsTypeTag(val.ty)
    ensures r.tracker.regions == t.regions && r.tracker.history == t.history && r.tracker.barrier == t.barrier
    ensures OT.WellFormed(r.tracker) && r.next >= next
    ensures OT.Lookup(t, addr).None? ==> r.tracker == t && r.expr == MW.MemRead(m, addr, val, next).expr
  {
    match OT.Lookup(t, addr)
    case None =>
      var g := MW.MemRead(m, addr, val, next);
      Loaded(g.expr, t, g.next)
    case Some(o) =>
      OT.LookupSound(t, addr, o);
      var g := SO.Read(o, addr, val, next);
      Loaded(g.expr, OT.MarkDeref(t, o, addr, true), g.next)
  }

  /**
   * `Deref(addr, value)` given the popped top element: a deref node of the
   * object's current version through the top's expression when the address
   * is tracked and the top symbolic, an ordinary read otherwise.
   */
  ghost function DerefSpec(t: OT.Tracker, m: Mem, top: StackElem, addr: UInt64, val: Value, next: nat): (r: Loaded)
    requires OT.WellFormed(t) && MW.ValidMem(m) && IsTypeTag(val.ty)
    ensures OT.WellFormed(r.tracker)
    ensures !Tracks(top) || OT.Lookup(t, addr).None? ==> r == LoadSpec(t, m, addr, val, next)
  {
    match OT.Lookup(t, addr)
    case Some(o) =>
      if Tracks(top) then
        var d := F.NewDerefExprWriter(val, o.managerIdx, o.snapshotIdx, top.expr.value, next);
        Loaded(Some(d.expr), OT.MarkDeref(t, o, addr, true), d.next)
      else LoadSpec(t, m, addr, val, next)
    case None => LoadSpec(t, m, addr, val, next)
  }

  /**
   * A symbolic dereference of a tracked address yields a deref node through
   * the pointer's tree, naming the version of the region that contains the
   * address, and carrying the loaded value.
   */
  lemma DerefSymbolic(t: OT.Tracker, m: Mem, top: StackElem, addr: UInt64, val: Value, next: nat, o: SO.Obj)
    requires OT.WellFormed(t) && MW.ValidMem(m) && IsTypeTag(val.ty)
    requires Tracks(top) && OT.Lookup(t, addr) == Some(o)
    ensures var r := DerefSpec(t, m, top, addr, val, next);
      r.expr.Some? && r.expr.value.Deref? && r.expr.value.addr == top.expr.value &&
      r.expr.value.value == val && r.expr.value.managerIdx == o.managerIdx &&
      r.expr.value.snapshotIdx == o.snapshotIdx && o.start <= addr < SO.End(o) &&
      SO.End(o) in t.regions && t.regions[SO.End(o)] == o
  {
    OT.LookupSound(t, addr, o);
  }

  /** The tree a store into an object records: the element's symbolic tree, or a constant of its value. */
  function StoredValue(se: StackElem, next: nat): (r: Numbered)
    ensures Tracks(se) ==> r == Numbered(se.expr.value, next)
    ensures !Tracks(se) ==> r.expr.Const? && r.expr.value == ValueOf(se) && r.next == next + 1
  {
    if Tracks(se) then Numbered(se.expr.value, next) else F.NewConcreteExpr(ValueOf(se), next)
  }

  /**
   * What an untracked store needs of main memory: a symbolic tree fits a
   * slot, and a concretized width is positive and fits an `int`.
   */
  predicate Storable(se: StackElem) {
    if Tracks(se) then MW.SlotOk(se.expr) else 1 <= ValueSize(se.ty, se.concrete) < 0x8000_0000
  }

  /** The state a store leaves: the tracker, main memory and the id counter. */
  datatype Stored = Stored(tracker: OT.Tracker, mem: Mem, next: nat)

  /**
   * `Store(addr)` (with `symAddr` absent) and `Write(addr)` (with the
   * destination's expression) for the element `se`. Into an untracked
   * address, a symbolic tree is written to main memory and a concrete value
   * concretizes `sizeOfType` bytes. Into a tracked region, the write is
   * recorded in the live version, after first archiving it and making the
   * next version live when the region was flagged as read.
   */
  ghost function StoreSpec(t: OT.Tracker, m: Mem, symAddr: Option<Expr>, se: StackElem, addr: UInt64, next: nat): (r: Stored)
    requires OT.WellFormed(t) && MW.ValidMem(m)
    requires OT.Lookup(t, addr).None? ==> Storable(se)
    ensures OT.WellFormed(r.tracker) && MW.ValidMem(r.mem)
    ensures OT.Lookup(t, addr).Some? ==> r.mem == m
    ensures OT.Lookup(t, addr).None? ==> r.tracker == t
  {
    match OT.Lookup(t, addr)
    case None =>
      var w := UntrackedStore(m, se, addr, next);
      Stored(t, w.0, w.1)
    case Some(o) =>
      var w := TrackedStore(t, o, symAddr, se, addr, next);
      Stored(w.0, m, w.1)
  }

  /** A store to an address outside every tracked region: main memory only. */
  ghost function UntrackedStore(m: Mem, se: StackElem, addr: UInt64, next: nat): (r: (Mem, nat))
    requires MW.ValidMem(m) && Storable(se)
    ensures MW.ValidMem(r.0)
  {
    if Tracks(se) then MW.MemWrite(m, addr, se.expr.value, next)
    else MW.ConcretizeSpec(m, addr, ValueSize(se.ty, se.concrete), next)
  }

  /** A store into the tracked region `o`, which holds `addr`: the tracker only. */
  ghost function TrackedStore(t: OT.Tracker, o: SO.Obj, symAddr: Option<Expr>, se: StackElem, addr: UInt64,
                              next: nat): (r: (OT.Tracker, nat))
    requires OT.WellFormed(t) && OT.Lookup(t, addr) == Some(o)
    ensures OT.WellFormed(r.0)
  {
    OT.LookupSound(t, addr, o);
    var s := if OT.DerefState(t, addr) then OT.Snapshot(t, o, addr) else (t, o);
    OT.SnapshotShape(t, o, addr);
    var v := StoredValue(se, next);
    var w := SO.Write(s.1, symAddr, addr, v.expr, v.next);
    OT.PutWellFormed(s.0, w.0);
    (OT.Put(s.0, w.0), w.1)
  }

  /**
   * A store into a tracked region keeps every live version current and the
   * history in order; when the region was flagged as read, the version
   * that was live is archived first.
   */
  lemma StoreVersioned(t: OT.Tracker, m: Mem, symAddr: Option<Expr>, se: StackElem, addr: UInt64, next: nat)
    requires OT.Versioned(t) && MW.ValidMem(m)
    requires OT.Lookup(t, addr).None? ==> Storable(se)
    ensures var t' := StoreSpec(t, m, symAddr, se, addr, next).tracker;
      OT.Versioned(t') && OT.Extends(t.history, t'.history) &&
      (OT.Lookup(t, addr).Some? && OT.DerefState(t, addr) ==>
        var o := OT.Lookup(t, addr).value;
        t'.history[o.managerIdx] == t.history[o.managerIdx] + [o])
  {
    match OT.Lookup(t, addr)
    case None =>
    case Some(o) =>
      OT.LookupSound(t, addr, o);
      var s := if OT.DerefState(t, addr) then OT.Snapshot(t, o, addr) else (t, o);
      if OT.DerefState(t, addr) {
        OT.SnapshotVersioned(t, o, addr);
      }
      var v := StoredValue(se, next);
      var w := SO.Write(s.1, symAddr, addr, v.expr, v.next);
      OT.PutVersioned(s.0, w.0);
  }

  /**
   * Storing a symbolic tree to an untracked address and loading it back
   * with a value of the same width gives the same tree, up to node ids.
   */
  lemma LoadAfterStore(t: OT.Tracker, m: Mem, se: StackElem, addr: UInt64, val: Value, next: nat, next': nat)
    requires OT.WellFormed(t) && MW.ValidMem(m) && IsTypeTag(val.ty)
    requires OT.Lookup(t, addr).None? && Tracks(se) && MW.SlotOk(se.expr)
    requires kSizeOfType[val.ty] == se.expr.value.size
    ensures var s := StoreSpec(t, m, None, se, addr, next);
      var r := LoadSpec(s.tracker, s.mem, addr, val, next').expr;
      r.Some? && Strip(r.value) == Strip(se.expr.value)
  {
    MW.WriteThenRead(m, addr, se.expr.value, val, next, next');
  }

  /**
   * After any store into a tracked region, a load from the same address
   * reads the version written: a deref of it through the constant address,
   * with the loaded value.
   */
  lemma LoadAfterTrackedStore(t: OT.Tracker, m: Mem, symAddr: Option<Expr>, se: StackElem, addr: UInt64,
                              val: Value, next: nat, next': nat)
    requires OT.WellFormed(t) && MW.ValidMem(m) && IsTypeTag(val.ty) && OT.Lookup(t, addr).Some?
    ensures var s := StoreSpec(t, m, symAddr, se, addr, next);
      var o := OT.Lookup(t, addr).value;
      var n := OT.Lookup(s.tracker, addr);
      var r := LoadSpec(s.tracker, s.mem, addr, val, next').expr;
      n.Some? && n.value.managerIdx == o.managerIdx &&
      (OT.DerefState(t, addr) ==> n.value.snapshotIdx == (o.snapshotIdx + 1) % TWO_64) &&
      (!OT.DerefState(t, addr) ==> n.value.snapshotIdx == o.snapshotIdx) &&
      r.Some? && r.value.Deref? && r.value.managerIdx == n.value.managerIdx &&
      r.value.snapshotIdx == n.value.snapshotIdx && r.value.value == val &&
      r.value.addr.Const? && ToUInt64(r.value.addr.value.integral) == addr
  {
    var o := OT.Lookup(t, addr).value;
    OT.LookupSound(t, addr, o);
    OT.SnapshotShape(t, o, addr);
    var s := if OT.DerefState(t, addr) then OT.Snapshot(t, o, addr) else (t, o);
    var v := StoredValue(se, next);
    var w := SO.Write(s.1, symAddr, addr, v.expr, v.next);
    assert s.0.regions[SO.End(o)] == s.1;
    if OT.DerefState(t, addr) {
      assert OT.Lookup(s.0, addr) == Some(s.1) by {
        assert s.0.regions.Keys == t.regions.Keys;
      }
    }
    OT.PutLookup(s.0, w.0, addr);
    SO.ReadAfterWrite(s.1, symAddr, addr, v.expr, addr, val, v.next, next');
  }

  // ----------------------------------------------------------------- inputs

  /**
   * The input side of `SymbolicExecutionWriter`: each input's value, the
   * original value, bit range and index size of each input byte, the tree
   * first read at each input, the type of each input, and each input's name
   * and declaration site. The path is kept separately.
   */
  datatype Execution = Execution(inputs: seq<Value>, values: seq<UInt64>, hs: seq<bv8>, ls: seq<bv8>,
                                 indexSizes: seq<Byte>, exprs: seq<Expr>, vars: map<UInt32, TypeTag>,
                                 varNames: seq<seq<Byte>>, locations: seq<PW.Loc>)

  predicate Typed(inputs: seq<Value>) {
    forall k | 0 <= k < |inputs| :: IsTypeTag(inputs[k].ty)
  }

  /** Overwrite entry `n` if there is one, append otherwise. */
  function SetOrPush<T>(s: seq<T>, n: nat, x: T): (r: seq<T>)
    ensures n < |s| ==> |r| == |s| && r[n] == x
    ensures n >= |s| ==> r == s + [x]
    ensures forall k | 0 <= k < |s| && k != n :: r[k] == s[k]
  {
    if n < |s| then s[n := x] else s + [x]
  }

  /**
   * A replayed bit-field input: the shifts of the merge are defined, `h`
   * below the 64 bits of `oldValue` and `l` below the 31 a positive `int`
   * `1 << l` allows.
   */
  predicate BitFieldOk(inputs: seq<Value>, n: nat, ty: TypeTag, h: bv8, l: bv8) {
    n < |inputs| && ty >= BITFIELD_CHAR ==> h < 64 && l < 31
  }

  /** A bit-field whose bits lie inside one byte, over an old value that is a byte. */
  predicate InByte(ty: TypeTag, oldValue: UInt64, h: bv8, l: bv8) {
    ty == BITFIELD_CHAR && l < h <= 8 && oldValue < 0x100
  }

  /** The low byte of a value. */
  function LowByte(x: int): bv8 {
    (x % 0x100) as bv8
  }

  /**
   * The value input `n` takes. A replayed input keeps its previous value,
   * except that a bit-field is rebuilt from the previous value and the
   * object's current contents `oldValue`: with the corrected byte merge when
   * the field lies inside one byte, and with line 518 as written otherwise
   * (the 16-, 32- and 64-bit union tags). A new input takes `oldValue`
   * (`NewInput`) or the given initial value (`NewInput2`).
   */
  function InputValue(inputs: seq<Value>, n: nat, ty: TypeTag, oldValue: UInt64, h: bv8, l: bv8,
                      init: Option<Value>): (v: Value)
    requires BitFieldOk(inputs, n, ty, h, l)
    ensures n < |inputs| && ty < BITFIELD_CHAR ==> v == inputs[n]
    ensures n < |inputs| && ty >= BITFIELD_CHAR ==> v.ty == ty && v.floating == 0
    ensures n < |inputs| && InByte(ty, oldValue, h, l) ==>
      v.integral == BitFields.MergeInput(LowByte(inputs[n].integral), oldValue as bv8, h, l) as int
    ensures n < |inputs| && ty >= BITFIELD_CHAR && !InByte(ty, oldValue, h, l) ==>
      v.integral == ToInt64(BitFields.MergeWordAsWritten(ToUInt64(inputs[n].integral) as bv64, oldValue as bv64, h, l) as int)
    ensures n >= |inputs| ==> v == if init.Some? then init.value else Value(ToInt64(oldValue), 0, ty)
  {
    if n < |inputs| then
      if ty < BITFIELD_CHAR then inputs[n]
      else if InByte(ty, oldValue, h, l) then
        Value(BitFields.MergeInput(LowByte(inputs[n].integral), oldValue as bv8, h, l) as int, 0, ty)
      else
        Value(ToInt64(BitFields.MergeWordAsWritten(ToUInt64(inputs[n].integral) as bv64, oldValue as bv64, h, l) as int), 0, ty)
    else if init.Some? then init.value
    else Value(ToInt64(oldValue), 0, ty)
  }

  /** The input node of input `n`, built with a fresh id. */
  function NewAtomic(size: UInt64, val: Value, n: UInt32, next: nat): (r: Numbered)
    ensures r.expr.Atomic? && r.expr.inputVar == n && r.expr.value == val && r.expr.size == size
    ensures NumberedFrom(r.expr, next) && r.next == next + 1
  {
    Numbered(Atomic(val, size, Fresh(next), n), next + 1)
  }

  /** The execution after input `n` of type `ty` was declared with value `val` and first read as `e`. */
  function Recorded(ex: Execution, n: UInt32, ty: TypeTag, varName: seq<Byte>, line: Int32, fname: seq<Byte>,
                    oldValue: UInt64, h: bv8, l: bv8, indexSize: Byte, val: Value, e: Expr): (ex': Execution)
    ensures n <= |ex.inputs| ==> n < |ex'.inputs| && ex'.inputs[n] == val
    ensures n <= |ex.exprs| ==> n < |ex'.exprs| && ex'.exprs[n] == e
    ensures ex'.varNames == ex.varNames + [varName] && ex'.locations == ex.locations + [PW.Loc(fname, line)]
    ensures n in ex'.vars && (n in ex.vars ==> ex'.vars[n] == ex.vars[n]) && (n !in ex.vars ==> ex'.vars[n] == ty)
    ensures ex'.vars.Keys == ex.vars.Keys + {n}
  {
    Execution(
      if n < |ex.inputs| && ty < BITFIELD_CHAR && val == ex.inputs[n] then ex.inputs else SetOrPush(ex.inputs, n, val),
      SetOrPush(ex.values, n, oldValue), SetOrPush(ex.hs, n, h), SetOrPush(ex.ls, n, l),
      SetOrPush(ex.indexSizes, n, indexSize), SetOrPush(ex.exprs, n, e),
      if n in ex.vars then ex.vars else ex.vars[n := ty],
      ex.varNames + [varName], ex.locations + [PW.Loc(fname, line)])
  }

  lemma InputValueTyped(inputs: seq<Value>, n: nat, ty: TypeTag, oldValue: UInt64, h: bv8, l: bv8, init: Option<Value>)
    requires Typed(inputs) && BitFieldOk(inputs, n, ty, h, l)
    requires init.Some? ==> IsTypeTag(init.value.ty)
    ensures IsTypeTag(InputValue(inputs, n, ty, oldValue, h, l, init).ty)
  {
  }

  /** Recording an input keeps every replayed value well typed. */
  lemma RecordedTyped(ex: Execution, n: UInt32, ty: TypeTag, varName: seq<Byte>, line: Int32, fname: seq<Byte>,
                      oldValue: UInt64, h: bv8, l: bv8, indexSize: Byte, val: Value, e: Expr)
    requires Typed(ex.inputs) && IsTypeTag(val.ty)
    ensures Typed(Recorded(ex, n, ty, varName, line, fname, oldValue, h, l, indexSize, val, e).inputs)
  {
  }

  /** The input count after one more input: an unsigned 32-bit increment, wrapping to 0. */
  function NextInput(n: UInt32): (r: UInt32)
    ensures r == (n + 1) % 0x1_0000_0000
  {
    if n == 0xFFFF_FFFF then 0 else n + 1
  }

  /** What declaring an input does to the tracker, main memory and the id counter, and the tree it records. */
  datatype InputEffect = InputEffect(tracker: OT.Tracker, mem: Mem, recorded: Expr, next: nat)

  /**
   * `NewInput` after the value is chosen: the tree at `addr` is read (and a
   * tracked region flagged as read); a copy of it, or of a fresh input node
   * when there is none, is recorded; then a fresh input node is written to
   * main memory at `addr`.
   */
  ghost function InputSpec(t: OT.Tracker, m: Mem, addr: UInt64, ty: TypeTag, val: Value, n: UInt32, next: nat): (r: InputEffect)
    requires OT.WellFormed(t) && MW.ValidMem(m) && IsTypeTag(val.ty) && ty != STRUCT
    ensures OT.WellFormed(r.tracker) && MW.ValidMem(r.mem)
    ensures r.tracker.regions == t.regions && r.tracker.history == t.history
  {
    SizeOfTypeTable();
    var rd := InputRead(t, m, addr, ty, val, n, next);
    var atom := NewAtomic(kSizeOfType[ty], val, n, rd.next);
    var w := MW.MemWrite(m, addr, atom.expr, atom.next);
    InputEffect(rd.tracker, w.0, rd.recorded, w.1)
  }

  /** The read half of `InputSpec`: main memory is not touched yet. */
  ghost function InputRead(t: OT.Tracker, m: Mem, addr: UInt64, ty: TypeTag, val: Value, n: UInt32, next: nat): (r: InputEffect)
    requires OT.WellFormed(t) && MW.ValidMem(m) && IsTypeTag(val.ty) && ty != STRUCT
    ensures OT.WellFormed(r.tracker) && r.mem == m
    ensures r.tracker.regions == t.regions && r.tracker.history == t.history
  {
    var g := LoadSpec(t, m, addr, val, next);
    var found := if g.expr.Some? then Numbered(g.expr.value, g.next) else NewAtomic(kSizeOfType[ty], val, n, g.next);
    var c := Clone(found.expr, found.next);
    InputEffect(g.tracker, m, c.expr, c.next)
  }

  /**
   * After an input is declared, main memory holds input `n` at its address:
   * a read there of the input's width gives the input node, up to ids. On
   * an address with nothing symbolic, the recorded tree is that node too.
   */
  lemma InputInMemory(t: OT.Tracker, m: Mem, addr: UInt64, ty: TypeTag, val: Value, n: UInt32, next: nat,
                      rv: Value, next': nat)
    requires OT.WellFormed(t) && MW.ValidMem(m) && IsTypeTag(val.ty) && ty != STRUCT
    requires IsTypeTag(rv.ty) && kSizeOfType[rv.ty] == kSizeOfType[ty]
    ensures var r := InputSpec(t, m, addr, ty, val, n, next);
      var e := MW.MemRead(r.mem, addr, rv, next').expr;
      e.Some? && Strip(e.value) == Strip(Atomic(val, kSizeOfType[ty], 0, n))
    ensures LoadSpec(t, m, addr, val, next).expr.None? ==>
      Strip(InputSpec(t, m, addr, ty, val, n, next).recorded) == Strip(Atomic(val, kSizeOfType[ty], 0, n))
  {
    SizeOfTypeTable();
    var g := LoadSpec(t, m, addr, val, next);
    var found := if g.expr.Some? then Numbered(g.expr.value, g.next) else NewAtomic(kSizeOfType[ty], val, n, g.next);
    var c := Clone(found.expr, found.next);
    var atom := NewAtomic(kSizeOfType[ty], val, n, c.next);
    MW.WriteThenRead(m, addr, atom.expr, rv, atom.next, next');
    CloneStrip(found.expr, found.next);
  }

  // ------------------------------------------------------------------ class

  class SymbolicInterpreter {
    var stack: seq<StackElem>
    var returnValue: bool
    var numInputs: UInt32
    var ex: Execution
    const mem: MW.SymbolicMemoryWriter
    const tracker: OT.ObjectTrackerWriter
    const path: PW.SymbolicPathWriter
    /** The id counter all expression writers share. */
    const counter: IdCounter

    ghost predicate Valid()
      reads this, mem, tracker, path
    {
      mem.Valid() && OT.WellFormed(tracker.State()) && PW.Valid(path.State()) && Typed(ex.inputs)
    }

    /** Both constructors: with no inputs, or with the inputs of the run to replay. */
    constructor (inputs: seq<Value>, counter: IdCounter)
      requires Typed(inputs)
      ensures Valid() && stack == [] && !returnValue && numInputs == 0 && this.counter == counter
      ensures ex == Execution(inputs, [], [], [], [], [], map[], [], [])
      ensures mem.mem == map[] && tracker.State() == OT.Empty && path.State() == PW.EmptyPath
    {
      stack := [];
      returnValue := false;
      numInputs := 0;
      ex := Execution(inputs, [], [], [], [], [], map[], [], []);
      mem := new MW.SymbolicMemoryWriter();
      tracker := new OT.ObjectTrackerWriter();
      path := new PW.SymbolicPathWriter();
      this.counter := counter;
    }

    /** `ClearStack`: drops every element and forgets any pending return value. */
    method ClearStack()
      modifies this
      ensures stack == [] && !returnValue && numInputs == old(numInputs) && ex == old(ex)
    {
      stack := [];
      returnValue := false;
    }

    method PushSymbolic(e: Option<Expr>, value: Value)
      requires IsTypeTag(value.ty)
      modifies this
      ensures stack == old(stack) + [Elem(e, value)]
      ensures returnValue == old(returnValue) && numInputs == old(numInputs) && ex == old(ex)
    {
      stack := stack + [Elem(e, value)];
    }

    method PushConcrete(value: Value)
      requires IsTypeTag(value.ty)
      modifies this
      ensures stack == old(stack) + [Elem(None, value)]
      ensures returnValue == old(returnValue) && numInputs == old(numInputs) && ex == old(ex)
    {
      PushSymbolic(None, value);
    }

    /** The read `Load`, `Deref` and `NewInput` share. */
    method ReadAt(addr: UInt64, value: Value) returns (e: Option<Expr>)
      requires Valid() && IsTypeTag(value.ty)
      modifies tracker, counter
      ensures Valid()
      ensures var g := LoadSpec(old(tracker.State()), mem.mem, addr, value, old(counter.next));
        e == g.expr && tracker.State() == g.tracker && counter.next == g.next
    {
      var obj := tracker.Find(addr);
      if obj.None? {
        e := mem.Read(addr, value, counter);
      } else {
        OT.LookupSound(tracker.State(), addr, obj.value);
        var g := SO.Read(obj.value, addr, value, counter.next);
        e := g.expr;
        counter.next := g.next;
        tracker.UpdateDereferredState(obj.value, addr, true);
      }
    }

    /** `Load(addr, value)`: pushes one element, symbolic iff the read found a tree. */
    method Load(addr: UInt64, value: Value)
      requires Valid() && IsTypeTag(value.ty)
      modifies this, tracker, counter
      ensures Valid()
      ensures var g := LoadSpec(old(tracker.State()), mem.mem, addr, value, old(counter.next));
        stack == old(stack) + [Elem(g.expr, value)] && tracker.State() == g.tracker && counter.next == g.next
      ensures returnValue == old(returnValue) && numInputs == old(numInputs) && ex == old(ex)
    {
      var e := ReadAt(addr, value);
      PushSymbolic(e, value);
    }

    /** `Deref(addr, value)`: replaces the top element, the pointer, by what it points to. */
    method Deref(addr: UInt64, value: Value)
      requires Valid() && |stack| > 0 && IsTypeTag(value.ty)
      modifies this, tracker, counter
      ensures Valid()
      ensures var g := DerefSpec(old(tracker.State()), mem.mem, old(stack)[|old(stack)| - 1], addr, value, old(counter.next));
        stack == old(stack)[..|old(stack)| - 1] + [Elem(g.expr, value)] &&
        tracker.State() == g.tracker && counter.next == g.next
      ensures returnValue == old(returnValue) && numInputs == old(numInputs) && ex == old(ex)
    {
      var top := stack[|stack| - 1];
      var obj := tracker.Find(addr);
      var e: Option<Expr> := None;
      if obj.Some? && Tracks(top) {
        var d := F.NewDerefExprWriter(value, obj.value.managerIdx, obj.value.snapshotIdx, top.expr.value, counter.next);
        counter.next := d.next;
        tracker.UpdateDereferredState(obj.value, addr, true);
        e := Some(d.expr);
      }
      stack := stack[..|stack| - 1];
      if e.None? {
        e := ReadAt(addr, value);
      }
      PushSymbolic(e, value);
    }

    /** The write `Store` and `Write` share. */
    method WriteAt(symAddr: Option<Expr>, se: StackElem, addr: UInt64)
      requires Valid()
      requires OT.Lookup(tracker.State(), addr).None? ==> Storable(se)
      modifies mem, tracker, counter
      ensures Valid()
      ensures var s := StoreSpec(old(tracker.State()), old(mem.mem), symAddr, se, addr, old(counter.next));
        tracker.State() == s.tracker && mem.mem == s.mem && counter.next == s.next
    {
      var obj := tracker.Find(addr);
      if obj.None? {
        WriteMemory(se, addr);
      } else {
        WriteRegion(obj.value, symAddr, se, addr);
      }
    }

    method WriteMemory(se: StackElem, addr: UInt64)
      requires mem.Valid() && Storable(se)
      modifies mem, counter
      ensures mem.Valid() && (mem.mem, counter.next) == UntrackedStore(old(mem.mem), se, addr, old(counter.next))
    {
      if Tracks(se) {
        mem.Write(addr, se.expr.value, counter);
      } else {
        mem.Concretize(addr, ValueSize(se.ty, se.concrete), counter);
      }
    }

    method WriteRegion(o: SO.Obj, symAddr: Option<Expr>, se: StackElem, addr: UInt64)
      requires OT.WellFormed(tracker.State()) && OT.Lookup(tracker.State(), addr) == Some(o)
      modifies tracker, counter
      ensures (tracker.State(), counter.next) == TrackedStore(old(tracker.State()), o, symAddr, se, addr, old(counter.next))
    {
      OT.LookupSound(tracker.State(), addr, o);
      OT.SnapshotShape(tracker.State(), o, addr);
      var flag := tracker.GetDereferredState(addr);
      var live := o;
      if flag {
        live := tracker.StoreAndGetNewObj(o, addr);
      }
      var v := StoredValue(se, counter.next);
      var w := SO.Write(live, symAddr, addr, v.expr, v.next);
      counter.next := w.1;
      tracker.Update(w.0);
    }

    /** `Store(addr)`: stores the top element and pops it. */
    method Store(addr: UInt64)
      requires Valid() && |stack| > 0
      requires OT.Lookup(tracker.State(), addr).None? ==> Storable(stack[|stack| - 1])
      modifies this, mem, tracker, counter
      ensures Valid()
      ensures var s := StoreSpec(old(tracker.State()), old(mem.mem), None, old(stack)[|old(stack)| - 1], addr, old(counter.next));
        tracker.State() == s.tracker && mem.mem == s.mem && counter.next == s.next
      ensures stack == old(stack)[..|old(stack)| - 1]
      ensures returnValue == old(returnValue) && numInputs == old(numInputs) && ex == old(ex)
    {
      WriteAt(None, stack[|stack| - 1], addr);
      stack := stack[..|stack| - 1];
    }

    /**
     * `Write(addr)`: stores the top element through the address below it,
     * whose tree a tracked region records with the write, and pops both.
     */
    method Write(addr: UInt64)
      requires Valid() && |stack| > 1
      requires OT.Lookup(tracker.State(), addr).None? ==> Storable(stack[|stack| - 1])
      modifies this, mem, tracker, counter
      ensures Valid()
      ensures var s := StoreSpec(old(tracker.State()), old(mem.mem), old(stack)[|old(stack)| - 2].expr,
                                 old(stack)[|old(stack)| - 1], addr, old(counter.next));
        tracker.State() == s.tracker && mem.mem == s.mem && counter.next == s.next
      ensures stack == old(stack)[..|old(stack)| - 2]
      ensures returnValue == old(returnValue) && numInputs == old(numInputs) && ex == old(ex)
    {
      WriteAt(stack[|stack| - 2].expr, stack[|stack| - 1], addr);
      stack := stack[..|stack| - 2];
    }

    method ApplyUnaryOp(op: Byte, value: Value)
      requires |stack| >= 1 && IsTypeTag(value.ty)
      modifies this, counter
      ensures var r := UnaryResult(old(stack)[|old(stack)| - 1], op, value, old(counter.next));
        stack == old(stack)[..|old(stack)| - 1] + [r.0] && counter.next == r.1
      ensures returnValue == old(returnValue) && numInputs == old(numInputs) && ex == old(ex)
    {
      var r := UnaryResult(stack[|stack| - 1], op, value, counter.next);
      counter.next := r.1;
      stack := stack[|stack| - 1 := r.0];
    }

    method ApplyBinaryOp(op: Byte, value: Value)
      requires |stack| >= 2 && IsTypeTag(value.ty)
      modifies this, counter
      ensures var r := BinaryResult(old(stack)[|old(stack)| - 2], old(stack)[|old(stack)| - 1], op, value, old(counter.next));
        stack == old(stack)[..|old(stack)| - 2] + [r.0] && counter.next == r.1
      ensures returnValue == old(returnValue) && numInputs == old(numInputs) && ex == old(ex)
    {
      var n := |stack|;
      var r := BinaryResult(stack[n - 2], stack[n - 1], op, value, counter.next);
      counter.next := r.1;
      stack := stack[..n - 2] + [r.0];
    }

    method ApplyCompareOp(op: CompareOp, value: Value)
      requires |stack| >= 2 && IsTypeTag(value.ty)
      modifies this, counter
      ensures var r := CompareResult(old(stack)[|old(stack)| - 2], old(stack)[|old(stack)| - 1], op, value, old(counter.next));
        stack == old(stack)[..|old(stack)| - 2] + [r.0] && counter.next == r.1
      ensures returnValue == old(returnValue) && numInputs == old(numInputs) && ex == old(ex)
    {
      var n := |stack|;
      var r := CompareResult(stack[n - 2], stack[n - 1], op, value, counter.next);
      counter.next := r.1;
      stack := stack[..n - 2] + [r.0];
    }

    method ScaleUpBy(isSigned: bool, size: UInt64)
      requires |stack| >= 1
      modifies this, counter
      ensures var r := ScaleUp(old(stack)[|old(stack)| - 1], isSigned, size, old(counter.next));
        stack == old(stack)[|old(stack)| - 1 := r.0] && counter.next == r.1
      ensures returnValue == old(returnValue) && numInputs == old(numInputs) && ex == old(ex)
    {
      var r := ScaleUp(stack[|stack| - 1], isSigned, size, counter.next);
      counter.next := r.1;
      stack := stack[|stack| - 1 := r.0];
    }

    method ApplyBinPtrOp(op: Byte, size: UInt64, value: Int64)
      requires |stack| >= 2
      requires op == SUBTRACT_PP && size > 1 && (stack[|stack| - 2].expr.Some? || stack[|stack| - 1].expr.Some?) ==>
        OddPart(size) == 1
      modifies this, counter
      ensures var r := PtrResult(old(stack)[|old(stack)| - 2], old(stack)[|old(stack)| - 1], op, size, value, old(counter.next));
        stack == old(stack)[..|old(stack)| - 2] + [r.0] && counter.next == r.1
      ensures returnValue == old(returnValue) && numInputs == old(numInputs) && ex == old(ex)
    {
      var n := |stack|;
      if stack[n - 2].expr.None? && stack[n - 1].expr.None? {
        var ty: TypeTag := if op == SUBTRACT_PP then LONG else U_LONG;
        stack := stack[..n - 2] + [StackElem(value, 0, None, ty)];
      } else if op == SUBTRACT_PP && size > 1 {
        PointerDifference(size, value);
      } else {
        PointerOffset(op, size, value);
      }
    }

    method PointerDifference(size: UInt64, value: Int64)
      requires |stack| >= 2 && (stack[|stack| - 2].expr.Some? || stack[|stack| - 1].expr.Some?)
      requires size > 1 && OddPart(size) == 1
      modifies this, counter
      ensures var r := PtrDifference(old(stack)[|old(stack)| - 2], old(stack)[|old(stack)| - 1], size, value, old(counter.next));
        stack == old(stack)[..|old(stack)| - 2] + [r.0] && counter.next == r.1
      ensures returnValue == old(returnValue) && numInputs == old(numInputs) && ex == old(ex)
    {
      var n := |stack|;
      var a := stack[n - 2];
      ApplyBinaryOp(SUBTRACT, Value(ToInt64(a.concrete - stack[n - 1].concrete), 0, LONG));
      var log2 := Log2(size);
      var sh := F.NewBinExprWriterConst(Value(value, 0, LONG), S_SHIFT_R, stack[n - 2].expr.value, Value(log2, 0, LONG), counter.next);
      counter.next := sh.next;
      stack := stack[..n - 2] + [StackElem(value, 0, Some(sh.expr), LONG)];
    }

    method PointerOffset(op: Byte, size: UInt64, value: Int64)
      requires |stack| >= 2
      modifies this, counter
      ensures var r := PtrOffset(old(stack)[|old(stack)| - 2], old(stack)[|old(stack)| - 1], op, size, value, old(counter.next));
        stack == old(stack)[..|old(stack)| - 2] + [r.0] && counter.next == r.1
      ensures returnValue == old(returnValue) && numInputs == old(numInputs) && ex == old(ex)
    {
      var n := |stack|;
      var a := stack[n - 2];
      var ty: TypeTag := if op == SUBTRACT_PP then LONG else U_LONG;
      if op != SUBTRACT_PP && size > 1 {
        ScaleUpBy(op == S_ADD_PI || op == S_SUBTRACT_PI, size);
      }
      var b := stack[n - 1];
      ApplyBinaryOp(PtrBinOp(op), Value(ToInt64(a.concrete - b.concrete), 0, ty));
      stack := stack[..n - 2] + [StackElem(value, 0, stack[n - 2].expr, ty)];
    }

    /** `Call`: marks the call in the path. */
    method Call()
      requires Valid()
      modifies path
      ensures Valid() && path.State() == PW.PushBranch(old(path.State()), PW.kCallId)
    {
      PW.PushBranchValid(path.State(), PW.kCallId);
      path.Push(PW.kCallId);
    }

    /** `Return`: marks the return in the path and notes whether a return value is on the stack. */
    method Return()
      requires Valid() && |stack| <= 1
      modifies this, path
      ensures Valid() && path.State() == PW.PushBranch(old(path.State()), PW.kReturnId)
      ensures returnValue == (|stack| == 1)
      ensures stack == old(stack) && numInputs == old(numInputs) && ex == old(ex)
    {
      PW.PushBranchValid(path.State(), PW.kReturnId);
      path.Push(PW.kReturnId);
      returnValue := |stack| == 1;
    }

    /**
     * `HandleReturn(value)`: after any call, exactly the returned value is on
     * the stack: the callee's own, possibly symbolic, when it was
     * instrumented, or else the concrete value returned, in place of the
     * arguments left behind.
     */
    method HandleReturn(value: Value)
      requires returnValue ==> |stack| == 1
      requires IsTypeTag(value.ty)
      modifies this
      ensures !returnValue && |stack| == 1
      ensures old(returnValue) ==> stack == old(stack)
      ensures !old(returnValue) ==> stack == [Elem(None, value)]
      ensures numInputs == old(numInputs) && ex == old(ex)
    {
      if returnValue {
        returnValue := false;
      } else {
        ClearStack();
        PushConcrete(value);
      }
    }

    /**
     * `Branch(bid, pred, lineno, filename)`: needs exactly the condition on
     * the stack; logs the branch with the condition's constraint, and pops.
     */
    method Branch(bid: PW.BranchId, pred: bool, lineno: UInt32, fname: seq<Byte>)
      requires Valid() && |stack| == 1 && PW.CString(fname)
      modifies this, path, counter
      ensures Valid()
      ensures var c := BranchCondition(old(stack)[0], pred, old(counter.next));
        path.State() == PW.PushConstraint(old(path.State()), bid, c.0, lineno, fname) && counter.next == c.1
      ensures stack == [] && returnValue == old(returnValue) && numInputs == old(numInputs) && ex == old(ex)
    {
      var c := BranchCondition(stack[0], pred, counter.next);
      counter.next := c.1;
      PW.PushConstraintValid(path.State(), bid, c.0, lineno, fname);
      path.PushWith(bid, c.0, lineno, fname);
      stack := [];
    }

    /** `Alloc(addr, size)`: starts tracking a heap region. */
    method Alloc(addr: UInt64, size: UInt64)
      requires Valid() && |tracker.history| < OT.MAX_MANAGERS
      modifies tracker
      ensures Valid() && tracker.State() == OT.Add(old(tracker.State()), addr, size)
    {
      tracker.AddRegion(addr, size);
    }

    /** `Free(addr)`: archives the region that starts at `addr` and stops tracking it. */
    method Free(addr: UInt64)
      requires Valid()
      modifies tracker
      ensures Valid() && tracker.State() == OT.Release(old(tracker.State()), addr)
    {
      OT.ReleaseWellFormed(tracker.State(), addr);
      tracker.Free(addr);
    }

    /** `Exit`: archives every live region that has versions. */
    method Exit()
      requires Valid()
      modifies tracker
      ensures Valid() && tracker.State() == OT.StoreAll(old(tracker.State()))
    {
      OT.StoreAllWellFormed(tracker.State());
      tracker.StoreAllObjAndRemove();
    }

    /** The first half of declaring an input: the read at `addr` and the tree recorded for it. */
    method ReadInput(addr: UInt64, ty: TypeTag, val: Value, n: UInt32) returns (recorded: Expr)
      requires Valid() && IsTypeTag(val.ty) && ty != STRUCT
      modifies tracker, counter
      ensures Valid()
      ensures InputRead(old(tracker.State()), mem.mem, addr, ty, val, n, old(counter.next)) ==
        InputEffect(tracker.State(), mem.mem, recorded, counter.next)
    {
      var e := ReadAt(addr, val);
      var found: Expr;
      if e.Some? {
        found := e.value;
      } else {
        var a := NewAtomic(kSizeOfType[ty], val, n, counter.next);
        found, counter.next := a.expr, a.next;
      }
      recorded := counter.CloneOf(found);
    }

    /**
     * What `NewInput` and `NewInput2` share once the value `val` is chosen:
     * the tree at `addr` is recorded as input `numInputs`, a fresh input
     * node is written there, and the count moves on, wrapping at 2^32.
     */
    method DeclareInput(ty: TypeTag, addr: UInt64, varName: seq<Byte>, line: Int32, fname: seq<Byte>,
                        oldValue: UInt64, h: bv8, l: bv8, indexSize: Byte, val: Value)
      requires Valid() && ty != STRUCT && IsTypeTag(val.ty)
      modifies this, mem, tracker, counter
      ensures Valid()
      ensures var r := InputSpec(old(tracker.State()), old(mem.mem), addr, ty, val, old(numInputs), old(counter.next));
        tracker.State() == r.tracker && mem.mem == r.mem && counter.next == r.next &&
        ex == Recorded(old(ex), old(numInputs), ty, varName, line, fname, oldValue, h, l, indexSize, val, r.recorded)
      ensures numInputs == NextInput(old(numInputs))
      ensures stack == old(stack) && returnValue == old(returnValue)
    {
      var n := numInputs;
      var c := ReadInput(addr, ty, val, n);
      var size := ValueSize(ty, val.integral);
      var atom := NewAtomic(size, val, n, counter.next);
      counter.next := atom.next;
      mem.Write(addr, atom.expr, counter);
      RecordedTyped(ex, n, ty, varName, line, fname, oldValue, h, l, indexSize, val, c);
      ex := Recorded(ex, n, ty, varName, line, fname, oldValue, h, l, indexSize, val, c);
      numInputs := NextInput(n);
    }

    /**
     * `NewInput(ty, addr, ...)`: declares input number `numInputs`. Its value
     * is replayed from the previous run, or `oldValue` for a new input; its
     * node is written to memory at `addr`, and the count moves on.
     */
    method NewInput(ty: TypeTag, addr: UInt64, varName: seq<Byte>, line: Int32, fname: seq<Byte>,
                    oldValue: UInt64, h: bv8, l: bv8, indexSize: Byte) returns (val: Value)
      requires Valid() && ty != STRUCT && BitFieldOk(ex.inputs, numInputs, ty, h, l)
      modifies this, mem, tracker, counter
      ensures Valid()
      ensures val == InputValue(old(ex.inputs), old(numInputs), ty, oldValue, h, l, None)
      ensures var r := InputSpec(old(tracker.State()), old(mem.mem), addr, ty, val, old(numInputs), old(counter.next));
        tracker.State() == r.tracker && mem.mem == r.mem && counter.next == r.next &&
        ex == Recorded(old(ex), old(numInputs), ty, varName, line, fname, oldValue, h, l, indexSize, val, r.recorded)
      ensures numInputs == NextInput(old(numInputs))
      ensures stack == old(stack) && returnValue == old(returnValue)
    {
      val := InputValue(ex.inputs, numInputs, ty, oldValue, h, l, None);
      InputValueTyped(ex.inputs, numInputs, ty, oldValue, h, l, None);
      DeclareInput(ty, addr, varName, line, fname, oldValue, h, l, indexSize, val);
    }

    /** `NewInput2`: as `NewInput`, except that a new input takes `initVal`. */
    method NewInput2(ty: TypeTag, addr: UInt64, initVal: Value, varName: seq<Byte>, line: Int32, fname: seq<Byte>,
                     oldValue: UInt64, h: bv8, l: bv8, indexSize: Byte) returns (val: Value)
      requires Valid() && ty != STRUCT && BitFieldOk(ex.inputs, numInputs, ty, h, l)
      requires IsTypeTag(initVal.ty)
      modifies this, mem, tracker, counter
      ensures Valid()
      ensures val == InputValue(old(ex.inputs), old(numInputs), ty, oldValue, h, l, Some(initVal))
      ensures var r := InputSpec(old(tracker.State()), old(mem.mem), addr, ty, val, old(numInputs), old(counter.next));
        tracker.State() == r.tracker && mem.mem == r.mem && counter.next == r.next &&
        ex == Recorded(old(ex), old(numInputs), ty, varName, line, fname, oldValue, h, l, indexSize, val, r.recorded)
      ensures numInputs == NextInput(old(numInputs))
      ensures stack == old(stack) && returnValue == old(returnValue)
    {
      val := InputValue(ex.inputs, numInputs, ty, oldValue, h, l, Some(initVal));
      InputValueTyped(ex.inputs, numInputs, ty, oldValue, h, l, Some(initVal));
      DeclareInput(ty, addr, varName, line, fname, oldValue, h, l, indexSize, val);
    }
  }
}
