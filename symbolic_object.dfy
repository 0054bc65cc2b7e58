/**
 * `SymbolicObjectWriter`: one version of a tracked heap region. A region is
 * identified by its manager index (its slot in the tracker's snapshot
 * history) and a version number, the snapshot index. An object keeps a
 * byte-slot memory and the list of writes made to it since the version was
 * taken; once it has writes, every read of it becomes a read through a
 * constant address of this version.
 */
module SymbolicObject {
  import opened Wrappers
  import opened BasicTypes
  import opened Bytes
  import opened Exprs
  import ExprCodec
  import F = WriterFactory
  import MW = MemoryWriter

  /** One write: the address expression and the expression written. */
  datatype WritePair = WritePair(addr: Expr, value: Expr)

  datatype Obj = Obj(start: UInt64, size: UInt64, managerIdx: UInt64, snapshotIdx: UInt64,
                     mem: map<nat, seq<MW.Slot>>, writes: seq<WritePair>)

  predicate ValidObj(o: Obj) {
    MW.ValidMem(o.mem)
  }

  /** `end()`: the key the tracker files the object under. */
  function End(o: Obj): nat {
    o.start + o.size
  }

  /** The constructor: version 0 of a region, with no memory and no writes. */
  function NewObj(start: UInt64, size: UInt64, managerIdx: UInt64): (o: Obj)
    ensures ValidObj(o) && o.snapshotIdx == 0 && o.writes == [] && o.mem == map[]
    ensures o.start == start && End(o) == start + size && o.managerIdx == managerIdx
  {
    Obj(start, size, managerIdx, 0, map[], [])
  }

  /**
   * The copy constructor: the next version of the same region. The `size_t`
   * version number moves on by one, the memory is copied and the writes
   * are not.
   */
  function Copy(o: Obj): (c: Obj)
    requires ValidObj(o)
    ensures ValidObj(c) && c.writes == [] && c.mem == o.mem
    ensures c.start == o.start && c.size == o.size && c.managerIdx == o.managerIdx && End(c) == End(o)
    ensures c.snapshotIdx == (o.snapshotIdx + 1) % TWO_64
  {
    o.(snapshotIdx := (o.snapshotIdx + 1) % TWO_64, writes := [])
  }

  /**
   * `read(addr, val)`: a plain memory read while the version has no writes;
   * after a write, a deref of this version through the constant address.
   */
  function Read(o: Obj, addr: UInt64, val: Value, next: nat): (r: MW.Got)
    requires ValidObj(o) && IsTypeTag(val.ty)
    ensures o.writes == [] ==> r == MW.MemRead(o.mem, addr, val, next)
    ensures o.writes != [] ==>
      r.expr.Some? && r.next == next + 2 &&
      r.expr.value == F.NewConstDerefExprWriter(val, o.managerIdx, o.snapshotIdx, addr, next).expr
  {
    if |o.writes| == 0 then MW.MemRead(o.mem, addr, val, next)
    else
      var d := F.NewConstDerefExprWriter(val, o.managerIdx, o.snapshotIdx, addr, next);
      MW.Got(Some(d.expr), d.next)
  }

  /** The address expression a write records: the symbolic one, or the address as a U_LONG constant. */
  function WriteAddr(symAddr: Option<Expr>, addr: UInt64, next: nat): (r: Numbered)
    ensures symAddr.Some? ==> r == Numbered(symAddr.value, next)
    ensures symAddr.None? ==>
      r.expr.Const? && r.expr.value == Value(ToInt64(addr), 0, U_LONG) &&
      ToUInt64(r.expr.value.integral) == addr && r.expr.size == 8 && r.next == next + 1
  {
    if symAddr.Some? then Numbered(symAddr.value, next)
    else F.NewConcreteExpr(Value(ToInt64(addr), 0, U_LONG), next)
  }

  /**
   * `write(sym_addr, addr, e)`: records one more (address, value) pair; the
   * memory is left as it is.
   */
  function Write(o: Obj, symAddr: Option<Expr>, addr: UInt64, e: Expr, next: nat): (r: (Obj, nat))
    requires ValidObj(o)
    ensures ValidObj(r.0) && r.0 == o.(writes := r.0.writes)
    ensures |r.0.writes| == |o.writes| + 1 && r.0.writes[..|o.writes|] == o.writes
    ensures r.0.writes[|o.writes|] == WritePair(WriteAddr(symAddr, addr, next).expr, e)
    ensures r.1 == WriteAddr(symAddr, addr, next).next
  {
    var a := WriteAddr(symAddr, addr, next);
    (o.(writes := o.writes + [WritePair(a.expr, e)]), a.next)
  }

  /** A new object holds no symbolic bytes: every read of it is concrete. */
  lemma NewObjReadsConcrete(start: UInt64, size: UInt64, managerIdx: UInt64, addr: UInt64, val: Value, next: nat)
    requires IsTypeTag(val.ty)
    ensures Read(NewObj(start, size, managerIdx), addr, val, next) == MW.Got(None, next)
  {
  }

  /**
   * Once written, a version answers every read with a deref of itself, at
   * the address read, with the value read.
   */
  lemma ReadAfterWrite(o: Obj, symAddr: Option<Expr>, waddr: UInt64, e: Expr, addr: UInt64, val: Value, next: nat, next': nat)
    requires ValidObj(o) && IsTypeTag(val.ty)
    ensures var r := Read(Write(o, symAddr, waddr, e, next).0, addr, val, next').expr;
      r.Some? && r.value.Deref? && r.value.managerIdx == o.managerIdx && r.value.snapshotIdx == o.snapshotIdx &&
      r.value.value == val && r.value.addr.Const? && ToUInt64(r.value.addr.value.integral) == addr
  {
  }

  /** The next version forgets the writes of the previous one: it reads its memory again. */
  lemma CopyReadsMemory(o: Obj, addr: UInt64, val: Value, next: nat)
    requires ValidObj(o) && IsTypeTag(val.ty)
    ensures Read(Copy(o), addr, val, next) == MW.MemRead(o.mem, addr, val, next)
  {
  }

  // -------------------------------------------------------------- Serialize

  /** The write pairs in order, each as its address expression then its value expression. */
  function WritesBytes(ws: seq<WritePair>): (bs: seq<Byte>)
  {
    if ws == [] then []
    else ExprCodec.Serialize(ws[0].addr) + ExprCodec.Serialize(ws[0].value) + WritesBytes(ws[1..])
  }

  /**
   * `Serialize`: start, size, manager index and version as 64-bit words, the
   * memory (its blocks in the hash map's order `order`), the number of
   * writes as a `size_t`, then the writes.
   */
  function ObjBytes(o: Obj, order: seq<nat>): (bs: seq<Byte>)
    requires ValidObj(o) && |order| < TWO_64
    requires forall k | 0 <= k < |order| :: order[k] in o.mem
  {
    U64Bytes(o.start) + U64Bytes(o.size) + U64Bytes(o.managerIdx) + U64Bytes(o.snapshotIdx)
      + MW.MemBytes(o.mem, order) + U64Bytes(|o.writes| % TWO_64) + WritesBytes(o.writes)
  }

  /** The four words a serialized object starts with. */
  datatype ObjHeader = ObjHeader(start: UInt64, size: UInt64, managerIdx: UInt64, snapshotIdx: UInt64)

  function ReadObjHeader(bs: seq<Byte>): ObjHeader
    requires |bs| >= 32
  {
    ObjHeader(ReadU64(bs[..8]), ReadU64(bs[8..16]), ReadU64(bs[16..24]), ReadU64(bs[24..32]))
  }

  /**
   * A serialized object gives back its identity from its first 32 bytes,
   * and its write count right after its memory.
   */
  lemma ObjBytesLayout(o: Obj, order: seq<nat>)
    requires ValidObj(o) && |order| < TWO_64 && |o.writes| < TWO_64
    requires forall k | 0 <= k < |order| :: order[k] in o.mem
    ensures var bs := ObjBytes(o, order);
      var m := |MW.MemBytes(o.mem, order)|;
      |bs| >= 40 + m &&
      ReadObjHeader(bs) == ObjHeader(o.start, o.size, o.managerIdx, o.snapshotIdx) &&
      ReadU64(bs[32 + m..40 + m]) == |o.writes| &&
      bs[40 + m..] == WritesBytes(o.writes)
  {
    var mb := MW.MemBytes(o.mem, order);
    var bs := ObjBytes(o, order);
    ObjLayout(U64Bytes(o.start), U64Bytes(o.size), U64Bytes(o.managerIdx), U64Bytes(o.snapshotIdx),
              mb, U64Bytes(|o.writes| % TWO_64), WritesBytes(o.writes));
    ReadBack(bs[..8], o.start);
    ReadBack(bs[8..16], o.size);
    ReadBack(bs[16..24], o.managerIdx);
    ReadBack(bs[24..32], o.snapshotIdx);
    ReadBack(bs[32 + |mb|..40 + |mb|], |o.writes| % TWO_64);
  }

  lemma ReadBack(bs: seq<Byte>, x: UInt64)
    requires bs == U64Bytes(x)
    ensures |bs| == 8 && ReadU64(bs) == x
  {
    FieldRoundTrips(x, 0, 0, 0);
  }

  /** Where each part of a serialized object sits, whatever its bytes. */
  lemma ObjLayout(a: seq<Byte>, b: seq<Byte>, c: seq<Byte>, d: seq<Byte>, m: seq<Byte>, e: seq<Byte>, w: seq<Byte>)
    requires |a| == |b| == |c| == |d| == |e| == 8
    ensures var bs := a + b + c + d + m + e + w;
      |bs| >= 40 + |m| && bs[..8] == a && bs[8..16] == b && bs[16..24] == c && bs[24..32] == d &&
      bs[32 + |m|..40 + |m|] == e && bs[40 + |m|..] == w
  {
  }
}
