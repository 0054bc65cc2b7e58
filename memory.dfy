/**
 * `SymbolicMemory`: the search's copy of the recorded symbolic memory. It is
 * filled from the recording side's `Serialize` output and read when the
 * search rebuilds the expression a load produced. Blocks, slots and the
 * forward scan are those of the recording side; the covering search steps
 * one byte at a time, and every node the search builds has id 0 (the
 * search's own node numbering is never read).
 */
module SearchMemory {
  import opened Wrappers
  import opened BasicTypes
  import opened Arith
  import opened Exprs
  import opened Bytes
  import ExprCodec
  import S = SearchFactory
  import W = MemoryWriter

  type Slot = W.Slot

  const CAPACITY: nat := W.CAPACITY

  /** An optional tree without its ids. */
  function StripOpt(o: Option<Expr>): (r: Option<Expr>)
    ensures r.None? <==> o.None?
    ensures r.Some? ==> r.value.size == o.value.size
  {
    if o.None? then None else Some(Strip(o.value))
  }

  // ------------------------------------------------ the covering expression

  /**
   * The search's covering search: step down one offset at a time until a
   * slot is occupied or offset 0 is reached. The result is the nearest
   * occupied slot at or below `j`, or 0 when there is none.
   */
  function CoverBelow(b: seq<Slot>, j: nat): (r: nat)
    requires |b| == CAPACITY && j < CAPACITY
    ensures r <= j && (r == 0 || b[r].Some?)
    ensures forall x | r < x <= j :: b[x].None?
    decreases j
  {
    if j == 0 || b[j].Some? then j else CoverBelow(b, j - 1)
  }

  /**
   * Where the recording side's search jumps from 13 to 12, 8 and 0, the
   * search's stops at the occupied slot 11.
   */
  lemma CoverSearchesDiffer(b: seq<Slot>)
    requires |b| == CAPACITY && b[9].Some? && b[10].Some? && b[11].Some?
    requires b[13].None? && b[12].None? && b[8].None?
    ensures CoverBelow(b, 13) == 11 && W.CoverFrom(b, 13) == 0
  {
    W.CoverFromSkips(b);
  }

  // ------------------------------------------------------------ MemElem::read

  /**
   * One round of the forward scan from byte `j`, with the search's
   * constructors: an occupied slot is copied (`Clone`) and appended; a run
   * of empty slots becomes a constant cut from `val`; nothing when the read
   * so far and the rest of the window are concrete.
   */
  function Step(w: seq<Slot>, i: nat, n: nat, val: Value, j: nat, ret: Option<Expr>): (r: Option<Expr>)
    requires W.ScanState(w, i, n, j, ret)
    ensures r.Some? ==> r.value.size > j
  {
    var s := w[i + j];
    if s.Some? then
      Some(if ret.None? then Strip(s.value) else S.Concatenate(ret.value, Strip(s.value)))
    else
      var k := W.RunEnd(w, i, j + 1, n);
      if ret.None? && k == n then None
      else if ret.None? then Some(S.ExtractBytesOfValue(val, 0, k))
      else Some(S.Concatenate(ret.value, S.ExtractBytesOfValue(val, j, k - j)))
  }

  /**
   * A round of the search's scan builds, ids apart, what the same round of
   * the recording side's scan builds.
   */
  lemma StepAgrees(w: seq<Slot>, i: nat, n: nat, val: Value, j: nat, ret: Option<Expr>, next: nat)
    requires W.ScanState(w, i, n, j, ret)
    ensures W.ScanState(w, i, n, j, StripOpt(ret))
    ensures var st := W.Step(w, i, n, val, j, ret, next);
      Step(w, i, n, val, j, StripOpt(ret)) == if st.None? then None else Some(Strip(st.value.expr))
  {
    if w[i + j].Some? {
      SlotStepAgrees(w, i, n, val, j, ret, next);
    } else {
      RunStepAgrees(w, i, n, val, j, ret, next);
    }
  }

  /** An occupied slot: both sides append a copy of it. */
  lemma SlotStepAgrees(w: seq<Slot>, i: nat, n: nat, val: Value, j: nat, ret: Option<Expr>, next: nat)
    requires W.ScanState(w, i, n, j, ret) && w[i + j].Some?
    ensures W.ScanState(w, i, n, j, StripOpt(ret))
    ensures var st := W.Step(w, i, n, val, j, ret, next);
      st.Some? && Step(w, i, n, val, j, StripOpt(ret)) == Some(Strip(st.value.expr))
  {
    var e := w[i + j].value;
    var c := Clone(e, next);
    CloneStrip(e, next);
    if ret.Some? {
      S.ConcatenateMatchesWriter(ret.value, c.expr, c.next);
      S.ConcatenateStrip(ret.value, c.expr);
    }
  }

  /** A run of empty slots: both sides append the same constant cut from `val`. */
  lemma RunStepAgrees(w: seq<Slot>, i: nat, n: nat, val: Value, j: nat, ret: Option<Expr>, next: nat)
    requires W.ScanState(w, i, n, j, ret) && w[i + j].None?
    ensures W.ScanState(w, i, n, j, StripOpt(ret))
    ensures var st := W.Step(w, i, n, val, j, ret, next);
      Step(w, i, n, val, j, StripOpt(ret)) == if st.None? then None else Some(Strip(st.value.expr))
  {
    var k := W.RunEnd(w, i, j + 1, n);
    if ret.Some? {
      var t := W.F.ExtractBytesOfValue(val, j, k - j, next);
      assert Strip(t.expr) == S.ExtractBytesOfValue(val, j, k - j);
      S.ConcatenateMatchesWriter(ret.value, t.expr, t.next);
      S.ConcatenateStrip(ret.value, t.expr);
    }
  }

  /** The forward scan of the search's `MemElem::read` from byte `j`. */
  function Scan(w: seq<Slot>, i: nat, n: nat, val: Value, j: nat, ret: Option<Expr>): (r: Option<Expr>)
    requires W.ScanState(w, i, n, j, ret)
    decreases n - j
  {
    match Step(w, i, n, val, j, ret)
    case None => None
    case Some(x) =>
      if x.size < n then Scan(w, i, n, val, x.size, Some(x))
      else Some(x)
  }

  /**
   * The search's forward scan rebuilds the recording side's, ids apart: the
   * same nodes with the same values and sizes, in the same order.
   */
  lemma {:induction false} ScanAgrees(w: seq<Slot>, i: nat, n: nat, val: Value, j: nat, ret: Option<Expr>, next: nat)
    requires W.ScanState(w, i, n, j, ret)
    ensures W.ScanState(w, i, n, j, StripOpt(ret))
    ensures Scan(w, i, n, val, j, StripOpt(ret)) == StripOpt(W.Scan(w, i, n, val, j, ret, next).expr)
    decreases n - j
  {
    StepAgrees(w, i, n, val, j, ret, next);
    var st := W.Step(w, i, n, val, j, ret, next);
    if st.Some? && st.value.expr.size < n {
      var x := st.value;
      StepAgrees(w, i, n, val, x.expr.size, Some(x.expr), x.next);
      ScanAgrees(w, i, n, val, x.expr.size, Some(x.expr), x.next);
    }
  }

  /**
   * `MemElem::read(addr, n, val, next_elem)` at offset `i` of block `b`,
   * with `nb` the next block (an empty one when absent): an EXTRACT at
   * `i - j` of a larger expression the search finds at `j`, otherwise the
   * forward scan, which returns nothing only when the whole window is
   * concrete and otherwise an expression at least `n` bytes wide.
   */
  function ReadBlock(b: seq<Slot>, nb: seq<Slot>, i: nat, n: nat, val: Value): (r: Option<Expr>)
    requires W.IsBlock(b) && W.IsBlock(nb) && i < CAPACITY && 1 <= n <= CAPACITY
    ensures var j := CoverBelow(b, i);
      W.CoversAt(b, j, i, n) ==>
        r.Some? && r.value.Binary? && r.value.bin == EXTRACT &&
        Strip(r.value.left) == Strip(b[j].value) && W.F.ExtractOffset(r.value) == i - j && r.value.size == n
    ensures r.None? <==> !W.CoversAt(b, CoverBelow(b, i), i, n) && W.AllEmpty(b + nb, i, 0, n)
    ensures r.Some? ==> r.value.size >= n
    ensures !W.CoversAt(b, CoverBelow(b, i), i, n) && W.EndsWithin(b + nb, i, 0, n) && r.Some? ==>
      r.value.size == n
  {
    var j := CoverBelow(b, i);
    if W.CoversAt(b, j, i, n) then
      StripStrip(b[j].value);
      Some(S.ExtractBytes(Strip(b[j].value), i - j, n))
    else
      ScanAgrees(b + nb, i, n, val, 0, None, 0);
      W.ScanResult(b + nb, i, n, val, 0, None, 0);
      Scan(b + nb, i, n, val, 0, None)
  }

  /**
   * When both covering searches stop at the same slot, the search's read
   * is the recording side's, ids apart.
   */
  /** The EXTRACT both sides build over a covering expression agrees, ids apart. */
  lemma ExtractAgrees(s: Expr, k: UInt64, n: UInt64, next: nat)
    ensures var c := Clone(s, next);
      Strip(S.ExtractBytes(Strip(s), k, n)) == Strip(W.F.ExtractBytes(c.expr, k, n, c.next).expr)
  {
    var c := Clone(s, next);
    CloneStrip(s, next);
    StripStrip(s);
    var x := W.F.ExtractBytes(c.expr, k, n, c.next).expr;
    var y := S.ExtractBytes(Strip(s), k, n);
    assert Strip(x.left) == Strip(y.left);
    assert Strip(x.right) == Strip(y.right);
  }

  /**
   * When both covering searches stop at the same slot, the search's read
   * is the recording side's, ids apart.
   */
  lemma ReadsAgree(b: seq<Slot>, nb: seq<Slot>, i: nat, n: nat, val: Value, next: nat)
    requires W.IsBlock(b) && W.IsBlock(nb) && i < CAPACITY && 1 <= n <= CAPACITY
    requires CoverBelow(b, i) == W.CoverFrom(b, i)
    ensures StripOpt(ReadBlock(b, nb, i, n, val)) == StripOpt(W.ReadBlock(b, nb, i, n, val, next).expr)
  {
    var j := CoverBelow(b, i);
    if W.CoversAt(b, j, i, n) {
      ExtractAgrees(b[j].value, i - j, n, next);
    } else {
      ScanAgrees(b + nb, i, n, val, 0, None, next);
      var r := W.Scan(b + nb, i, n, val, 0, None, next).expr;
      if r.Some? {
        StripStrip(r.value);
      }
    }
  }

  /**
   * `SymbolicMemory::read(addr, val)`: nothing for a STRUCT value or when
   * the block holding `addr` is absent; otherwise a block read of
   * `kSizeOfType[val.type]` bytes that may spill into the next block.
   */
  function MemRead(m: map<nat, seq<Slot>>, addr: nat, val: Value): (r: Option<Expr>)
    requires W.ValidMem(m) && IsTypeTag(val.ty)
    ensures val.ty == STRUCT || W.Base(addr) !in m ==> r.None?
    ensures val.ty != STRUCT && W.Base(addr) in m ==>
      r == ReadBlock(m[W.Base(addr)], W.NextBlock(m, addr), W.Offset(addr), kSizeOfType[val.ty], val)
  {
    var n := W.F.TypeSize(val);
    if n == 0 || W.Base(addr) !in m then None
    else ReadBlock(m[W.Base(addr)], W.NextBlock(m, addr), W.Offset(addr), n, val)
  }

  /**
   * On the same memory, the search's read of `addr` is the recording side's,
   * ids apart, whenever the two covering searches agree on that block.
   */
  lemma MemReadsAgree(m: map<nat, seq<Slot>>, addr: nat, val: Value, next: nat)
    requires W.ValidMem(m) && IsTypeTag(val.ty)
    requires W.Base(addr) in m ==> CoverBelow(m[W.Base(addr)], W.Offset(addr)) == W.CoverFrom(m[W.Base(addr)], W.Offset(addr))
    ensures StripOpt(MemRead(m, addr, val)) == StripOpt(W.MemRead(m, addr, val, next).expr)
  {
    if val.ty != STRUCT && W.Base(addr) in m {
      ReadsAgree(m[W.Base(addr)], W.NextBlock(m, addr), W.Offset(addr), kSizeOfType[val.ty], val, next);
    }
  }

  // ----------------------------------------------------------- MemElem::Parse

  /** Which slots a 32-bit bitmap marks as present, as the recording side lays it out: slot `k` at bit `31 - k`. */
  function Occupancy(c: nat): (p: seq<bool>)
    ensures |p| == CAPACITY
  {
    seq(CAPACITY, k requires 0 <= k < CAPACITY => BitField(c, 31 - k, 1) == 1)
  }

  /** Slot `k` is present exactly when bit `31 - k` is set. */
  lemma OccupancyBit(c: nat, k: nat)
    requires k < CAPACITY
    ensures Occupancy(c)[k] == (BitField(c, 31 - k, 1) == 1)
  {
  }

  /** Which slots `MemElem::Parse` reads: slot `i` when bit `i` is set. */
  function OccupancyAsWritten(c: nat): (p: seq<bool>)
    ensures |p| == CAPACITY
  {
    seq(CAPACITY, k requires 0 <= k < CAPACITY => BitField(c, k, 1) == 1)
  }

  /**
   * What parsing a block ends with: success, the block, the bytes after it,
   * the read table, and whether an unknown tag stopped the program.
   */
  datatype BlockParse = BlockParse(ok: bool, block: seq<Slot>, rest: seq<Byte>, table: ExprCodec.ReadTable, aborted: bool)

  /**
   * The slot loop of `MemElem::Parse` from slot `k`: each present slot is
   * parsed in turn and stored; the first one that does not parse leaves its
   * slot empty and ends the loop with failure, or stops the program when
   * its tag is unknown. Absent slots keep what the block held.
   */
  function ParseSlots(present: seq<bool>, s: seq<Byte>, table: ExprCodec.ReadTable, b: seq<Slot>, k: nat): (r: BlockParse)
    requires |present| == CAPACITY && |b| == CAPACITY && k <= CAPACITY
    ensures |r.block| == CAPACITY && (r.aborted ==> !r.ok)
    decreases CAPACITY - k
  {
    if k == CAPACITY then BlockParse(true, b, s, table, false)
    else if !present[k] then ParseSlots(present, s, table, b, k + 1)
    else
      match ExprCodec.Parse(s, table)
      case Parsed(e, rest, t) => ParseSlots(present, rest, t, b[k := Some(e)], k + 1)
      case Failed => BlockParse(false, b[k := None], s, table, false)
      case Aborted => BlockParse(false, b[k := None], s, table, true)
  }

  /**
   * The slot loop touches only present slots from `k` on, and when it
   * succeeds every one of them holds an expression.
   */
  lemma {:induction false} ParseSlotsFrame(present: seq<bool>, s: seq<Byte>, table: ExprCodec.ReadTable, b: seq<Slot>, k: nat, x: nat)
    requires |present| == CAPACITY && |b| == CAPACITY && k <= CAPACITY && x < CAPACITY
    ensures var r := ParseSlots(present, s, table, b, k);
      (x < k || !present[x] ==> r.block[x] == b[x]) &&
      (r.ok && k <= x && present[x] ==> r.block[x].Some?)
    decreases CAPACITY - k
  {
    if k < CAPACITY {
      if !present[k] {
        ParseSlotsFrame(present, s, table, b, k + 1, x);
      } else {
        var p := ExprCodec.Parse(s, table);
        if p.Parsed? {
          ParseSlotsFrame(present, p.rest, p.table, b[k := Some(p.expr)], k + 1, x);
        }
      }
    }
  }

  /**
   * `MemElem::Parse` into block `b`, reading slot `k` when bit `31 - k` of
   * the bitmap is set; a stream too short for the bitmap fails.
   */
  function ParseBlock(s: seq<Byte>, table: ExprCodec.ReadTable, b: seq<Slot>): (r: BlockParse)
    requires |b| == CAPACITY
    ensures |r.block| == CAPACITY
    ensures |s| < 4 ==> !r.ok && r.block == b
  {
    if |s| < 4 then BlockParse(false, b, s, table, false)
    else ParseSlots(Occupancy(ReadU32(s[..4])), s[4..], table, b, 0)
  }

  /**
   * A block whose first slot is present and whose first expression carries
   * an unknown tag stops the program instead of failing.
   */
  lemma ParseBlockUnknownTag(s: seq<Byte>, table: ExprCodec.ReadTable, b: seq<Slot>)
    requires |b| == CAPACITY && |s| > 4 + ExprCodec.HEADER_LEN
    requires Occupancy(ReadU32(s[..4]))[0] && s[4 + ExprCodec.HEADER_LEN] > kConstNodeTag
    ensures ParseBlock(s, table, b).aborted && !ParseBlock(s, table, b).ok
  {
    assert s[4..][ExprCodec.HEADER_LEN] == s[4 + ExprCodec.HEADER_LEN];
  }

  /** `MemElem::Parse` as written: slot `i` is read when bit `i` is set. */
  function ParseBlockAsWritten(s: seq<Byte>, table: ExprCodec.ReadTable, b: seq<Slot>): (r: BlockParse)
    requires |b| == CAPACITY
    ensures |r.block| == CAPACITY
    ensures |s| < 4 ==> !r.ok && r.block == b
  {
    if |s| < 4 then BlockParse(false, b, s, table, false)
    else ParseSlots(OccupancyAsWritten(ReadU32(s[..4])), s[4..], table, b, 0)
  }

  /** The occupied slots of `b` from slot `k` on, laid over `acc`. */
  function OverlayFrom(acc: seq<Slot>, b: seq<Slot>, k: nat): (r: seq<Slot>)
    requires |acc| == CAPACITY && |b| == CAPACITY
    ensures |r| == CAPACITY
  {
    seq(CAPACITY, x requires 0 <= x < CAPACITY => if x >= k && b[x].Some? then b[x] else acc[x])
  }

  /** The recording side's bitmap read back marks exactly the occupied slots. */
  lemma OccupancyOfBitmap(b: seq<Slot>)
    requires |b| == CAPACITY
    ensures forall k | 0 <= k < CAPACITY :: Occupancy(W.Bitmap(b, CAPACITY))[k] == b[k].Some?
  {
    forall k | 0 <= k < CAPACITY
      ensures Occupancy(W.Bitmap(b, CAPACITY))[k] == b[k].Some?
    {
      W.BitmapBit(b, k);
    }
  }

  /** Parsing the present slots the recording side wrote from slot `k` on stores each of them, ids included. */
  lemma {:induction false} ParseSlotsSerialized(present: seq<bool>, b: seq<Slot>, acc: seq<Slot>, k: nat,
                                                rest: seq<Byte>, table: ExprCodec.ReadTable)
    requires |present| == CAPACITY && |b| == CAPACITY && |acc| == CAPACITY && k <= CAPACITY
    requires forall x | 0 <= x < CAPACITY :: present[x] == b[x].Some?
    ensures var r := ParseSlots(present, W.SlotBytes(b, k) + rest, table, acc, k);
      r.ok && r.rest == rest && r.block == OverlayFrom(acc, b, k)
    decreases CAPACITY - k
  {
    if k == CAPACITY {
      assert OverlayFrom(acc, b, k) == acc;
    } else if b[k].None? {
      SlotBytesStep(b, k, rest);
      ParseSlotsSerialized(present, b, acc, k + 1, rest, table);
      OverlayStep(acc, b, k);
    } else {
      var e := b[k].value;
      var tail := W.SlotBytes(b, k + 1) + rest;
      SlotBytesStep(b, k, rest);
      ExprCodec.ParseSerialize(e, tail, table);
      ParseSlotsNext(present, ExprCodec.Serialize(e) + tail, table, acc, k, e, tail, ExprCodec.Record(e, table));
      ParseSlotsSerialized(present, b, acc[k := Some(e)], k + 1, rest, ExprCodec.Record(e, table));
      OverlayStep(acc, b, k);
    }
  }

  /** The slots from `k` serialise as slot `k`'s expression, if any, then the slots after it. */
  lemma SlotBytesStep(b: seq<Slot>, k: nat, rest: seq<Byte>)
    requires k < |b|
    ensures b[k].None? ==> W.SlotBytes(b, k) + rest == W.SlotBytes(b, k + 1) + rest
    ensures b[k].Some? ==> W.SlotBytes(b, k) + rest == ExprCodec.Serialize(b[k].value) + (W.SlotBytes(b, k + 1) + rest)
  {
    var y := W.SlotBytes(b, k + 1);
    if b[k].Some? {
      var x := ExprCodec.Serialize(b[k].value);
      assert W.SlotBytes(b, k) == x + y;
      assert (x + y) + rest == x + (y + rest);
    } else {
      assert W.SlotBytes(b, k) == [] + y;
      assert [] + y == y;
    }
  }

  /** A present slot that parses is stored, and the loop moves on to the next slot. */
  lemma ParseSlotsNext(present: seq<bool>, s: seq<Byte>, table: ExprCodec.ReadTable, b: seq<Slot>, k: nat,
                       e: Expr, rest: seq<Byte>, t: ExprCodec.ReadTable)
    requires |present| == CAPACITY && |b| == CAPACITY && k < CAPACITY && present[k]
    requires ExprCodec.Parse(s, table) == ExprCodec.Parsed(e, rest, t)
    ensures ParseSlots(present, s, table, b, k) == ParseSlots(present, rest, t, b[k := Some(e)], k + 1)
  {
  }

  /** Laying slot `k` of `b` over `acc` and the rest from `k + 1` is laying from `k`. */
  lemma OverlayStep(acc: seq<Slot>, b: seq<Slot>, k: nat)
    requires |acc| == CAPACITY && |b| == CAPACITY && k < CAPACITY
    ensures b[k].None? ==> OverlayFrom(acc, b, k + 1) == OverlayFrom(acc, b, k)
    ensures b[k].Some? ==> OverlayFrom(acc[k := b[k]], b, k + 1) == OverlayFrom(acc, b, k)
  {
    if b[k].None? {
      assert OverlayFrom(acc, b, k + 1) == OverlayFrom(acc, b, k);
    } else {
      assert OverlayFrom(acc[k := b[k]], b, k + 1) == OverlayFrom(acc, b, k);
    }
  }

  /** A block's serialisation is its bitmap word followed by its slots. */
  lemma BlockBytesSplit(b: seq<Slot>, rest: seq<Byte>)
    requires W.IsBlock(b)
    ensures var s := W.BlockBytes(b) + rest;
      ReadU32(s[..4]) == W.Bitmap(b, CAPACITY) && s[4..] == W.SlotBytes(b, 0) + rest
  {
    var c := W.Bitmap(b, CAPACITY);
    W.BlockBytesParts(b);
    var s := W.BlockBytes(b) + rest;
    assert s == U32Bytes(c) + (W.SlotBytes(b, 0) + rest);
    ExprCodec.Slice2(U32Bytes(c), W.SlotBytes(b, 0) + rest);
    FieldRoundTrips(0, 0, c, 0);
  }

  /**
   * A block the recording side wrote parses back: every occupied slot is
   * restored with its expression and the other slots keep what `acc` held,
   * so an empty block comes back as the block written.
   */
  lemma ParseBlockSerialized(b: seq<Slot>, acc: seq<Slot>, rest: seq<Byte>, table: ExprCodec.ReadTable)
    requires W.IsBlock(b) && |acc| == CAPACITY
    ensures var r := ParseBlock(W.BlockBytes(b) + rest, table, acc);
      r.ok && r.rest == rest && r.block == OverlayFrom(acc, b, 0)
    ensures acc == W.EmptyBlock() ==> OverlayFrom(acc, b, 0) == b
  {
    BlockBytesSplit(b, rest);
    OccupancyOfBitmap(b);
    ParseSlotsSerialized(Occupancy(W.Bitmap(b, CAPACITY)), b, acc, 0, rest, table);
  }

  /**
   * The bitmap as `MemElem::Parse` reads it is mirrored: a block whose only
   * expression is in slot 0 is written with bit 31 set, and the search
   * stores that expression in slot 31.
   */
  lemma BitmapMirrored(e: Expr, rest: seq<Byte>, table: ExprCodec.ReadTable)
    requires W.SlotOk(Some(e))
    ensures var b := W.EmptyBlock()[0 := Some(e)];
      var r := ParseBlockAsWritten(W.BlockBytes(b) + rest, table, W.EmptyBlock());
      r.ok && r.block[31] == Some(e) && r.block[0].None? &&
      ParseBlock(W.BlockBytes(b) + rest, table, W.EmptyBlock()).block == b
  {
    var b := W.EmptyBlock()[0 := Some(e)];
    var c := W.Bitmap(b, CAPACITY);
    var p := OccupancyAsWritten(c);
    var s := W.BlockBytes(b) + rest;
    SingleSlotBytes(e, rest);
    SingleSlotBitmap(e);
    SkipAbsent(p, s[4..], table, W.EmptyBlock(), 0, 31);
    ExprCodec.ParseSerialize(e, rest, table);
    ParseBlockSerialized(b, W.EmptyBlock(), rest, table);
  }

  /** A block holding only slot 0 is written as its bitmap and that slot's expression. */
  lemma SingleSlotBytes(e: Expr, rest: seq<Byte>)
    requires W.SlotOk(Some(e))
    ensures var b := W.EmptyBlock()[0 := Some(e)];
      var s := W.BlockBytes(b) + rest;
      |s| >= 4 && ReadU32(s[..4]) == W.Bitmap(b, CAPACITY) && s[4..] == ExprCodec.Serialize(e) + rest
  {
    var b := W.EmptyBlock()[0 := Some(e)];
    BlockBytesSplit(b, rest);
    EmptySlotBytes(b, 1);
    assert W.SlotBytes(b, 0) == ExprCodec.Serialize(e) + W.SlotBytes(b, 1);
  }

  /** Read bit by bit from the bottom, that block's bitmap has only bit 31 set. */
  lemma SingleSlotBitmap(e: Expr)
    ensures var b := W.EmptyBlock()[0 := Some(e)];
      forall x | 0 <= x < CAPACITY :: OccupancyAsWritten(W.Bitmap(b, CAPACITY))[x] == (x == 31)
  {
    var b := W.EmptyBlock()[0 := Some(e)];
    forall x | 0 <= x < CAPACITY
      ensures OccupancyAsWritten(W.Bitmap(b, CAPACITY))[x] == (x == 31)
    {
      W.BitmapBit(b, 31 - x);
    }
  }

  /** Slots from `k` on that are all empty write nothing. */
  lemma {:induction false} EmptySlotBytes(b: seq<Slot>, k: nat)
    requires k <= |b| && forall x | k <= x < |b| :: b[x].None?
    ensures W.SlotBytes(b, k) == []
    decreases |b| - k
  {
    if k < |b| {
      EmptySlotBytes(b, k + 1);
    }
  }

  /** Absent slots from `k` up to `m` are passed over without reading. */
  lemma {:induction false} SkipAbsent(present: seq<bool>, s: seq<Byte>, table: ExprCodec.ReadTable, b: seq<Slot>, k: nat, m: nat)
    requires |present| == CAPACITY && |b| == CAPACITY && k <= m <= CAPACITY
    requires forall x | k <= x < m :: !present[x]
    ensures ParseSlots(present, s, table, b, k) == ParseSlots(present, s, table, b, m)
    decreases m - k
  {
    if k < m {
      SkipAbsent(present, s, table, b, k + 1, m);
    }
  }

  // ---------------------------------------------------- SymbolicMemory::Parse

  /**
   * What parsing the memory ends with: success, the blocks, the bytes after
   * them, the read table, and whether an unknown tag stopped the program.
   */
  datatype MemParse = MemParse(ok: bool, mem: map<nat, seq<Slot>>, rest: seq<Byte>, table: ExprCodec.ReadTable, aborted: bool)

  predicate Blocks(m: map<nat, seq<Slot>>) {
    forall a | a in m :: |m[a]| == CAPACITY
  }

  /**
   * One (address, block) record: the address is read as a 64-bit word and
   * its block (created empty when new) parsed in place; a short read or a
   * failed block fails, keeping what was parsed.
   */
  function ParseRecord(s: seq<Byte>, table: ExprCodec.ReadTable, m: map<nat, seq<Slot>>): (r: MemParse)
    requires Blocks(m)
    ensures Blocks(r.mem) && (r.aborted ==> !r.ok)
  {
    if |s| < 8 then MemParse(false, m, s, table, false)
    else
      var addr := ReadU64(s[..8]);
      var p := ParseBlock(s[8..], table, if addr in m then m[addr] else W.EmptyBlock());
      MemParse(p.ok, m[addr := p.block], p.rest, p.table, p.aborted)
  }

  /** `count` records, stopping at the first that fails. */
  function ParseBlocks(count: nat, s: seq<Byte>, table: ExprCodec.ReadTable, m: map<nat, seq<Slot>>): (r: MemParse)
    requires Blocks(m)
    ensures Blocks(r.mem) && (r.aborted ==> !r.ok)
    decreases count
  {
    if count == 0 then MemParse(true, m, s, table, false)
    else
      var p := ParseRecord(s, table, m);
      if !p.ok then p else ParseBlocks(count - 1, p.rest, p.table, p.mem)
  }

  /** `SymbolicMemory::Parse`: the 64-bit block count, then the records; a short count read fails. */
  function ParseMem(s: seq<Byte>, table: ExprCodec.ReadTable, m: map<nat, seq<Slot>>): (r: MemParse)
    requires Blocks(m)
    ensures Blocks(r.mem) && (r.aborted ==> !r.ok)
    ensures |s| < 8 ==> !r.ok && !r.aborted && r.mem == m
  {
    if |s| < 8 then MemParse(false, m, s, table, false)
    else ParseBlocks(ReadU64(s[..8]), s[8..], table, m)
  }

  /** `order` lists each of its addresses once. */
  predicate Distinct(order: seq<nat>) {
    forall p, q | 0 <= p < q < |order| :: order[p] != order[q]
  }

  /** The blocks of `m` at the addresses of `order`, laid over `acc`. */
  function AddBlocks(acc: map<nat, seq<Slot>>, m: map<nat, seq<Slot>>, order: seq<nat>): (r: map<nat, seq<Slot>>)
    requires forall k | 0 <= k < |order| :: order[k] in m
    decreases |order|
  {
    if order == [] then acc else AddBlocks(acc[order[0] := m[order[0]]], m, order[1..])
  }

  /** Parsing the records the recording side wrote adds their blocks, unchanged, to those already present. */
  lemma {:induction false} ParseBlocksSerialized(m: map<nat, seq<Slot>>, order: seq<nat>, count: nat,
                                                 acc: map<nat, seq<Slot>>, rest: seq<Byte>, table: ExprCodec.ReadTable)
    requires W.ValidMem(m) && Blocks(acc) && Distinct(order) && count == |order|
    requires forall k | 0 <= k < |order| :: order[k] in m && order[k] !in acc
    ensures var r := ParseBlocks(count, W.BlocksBytes(m, order) + rest, table, acc);
      r.ok && r.rest == rest && r.mem == AddBlocks(acc, m, order)
    decreases count
  {
    if order == [] {
      assert W.BlocksBytes(m, order) + rest == rest;
    } else {
      var a := order[0];
      var tail := W.BlocksBytes(m, order[1..]) + rest;
      var s := W.BlocksBytes(m, order) + rest;
      BlocksBytesCons(m, order, rest);
      ParseRecordSerialized(m[a], a, acc, tail, table);
      var p := ParseRecord(s, table, acc);
      TailFresh(m, order, acc);
      ParseBlocksSerialized(m, order[1..], count - 1, acc[a := m[a]], rest, p.table);
      ParseBlocksNext(count, s, table, acc, tail, p.table, acc[a := m[a]]);
      assert AddBlocks(acc, m, order) == AddBlocks(acc[a := m[a]], m, order[1..]);
    }
  }

  /** The first record, then the others. */
  lemma BlocksBytesCons(m: map<nat, seq<Slot>>, order: seq<nat>, rest: seq<Byte>)
    requires W.ValidMem(m) && order != [] && forall k | 0 <= k < |order| :: order[k] in m
    ensures W.BlocksBytes(m, order) + rest ==
      U64Bytes(order[0]) + W.BlockBytes(m[order[0]]) + (W.BlocksBytes(m, order[1..]) + rest)
  {
  }

  /** The addresses after the first are still distinct, listed in `m` and new once the first is added. */
  lemma TailFresh(m: map<nat, seq<Slot>>, order: seq<nat>, acc: map<nat, seq<Slot>>)
    requires order != [] && Distinct(order)
    requires forall k | 0 <= k < |order| :: order[k] in m && order[k] !in acc
    ensures Distinct(order[1..])
    ensures forall k | 0 <= k < |order[1..]| :: order[1..][k] in m && order[1..][k] !in acc[order[0] := m[order[0]]]
  {
    forall k | 0 <= k < |order[1..]|
      ensures order[1..][k] in m && order[1..][k] !in acc[order[0] := m[order[0]]]
    {
      assert order[1..][k] == order[k + 1];
    }
  }

  /** A failed first record ends the parse. */
  lemma ParseBlocksFail(count: nat, s: seq<Byte>, table: ExprCodec.ReadTable, m: map<nat, seq<Slot>>, p: MemParse)
    requires Blocks(m) && count > 0 && p == ParseRecord(s, table, m) && !p.ok
    ensures ParseBlocks(count, s, table, m) == p
  {
  }

  /** A successful first record leaves the remaining records to parse after it. */
  lemma ParseBlocksNext(count: nat, s: seq<Byte>, table: ExprCodec.ReadTable, m: map<nat, seq<Slot>>,
                        rest: seq<Byte>, table': ExprCodec.ReadTable, m': map<nat, seq<Slot>>)
    requires Blocks(m) && count > 0 && ParseRecord(s, table, m) == MemParse(true, m', rest, table', false)
    ensures ParseBlocks(count, s, table, m) == ParseBlocks(count - 1, rest, table', m')
  {
  }

  /** The same step, for a successful first record `p`. */
  lemma ParseBlocksOk(count: nat, s: seq<Byte>, table: ExprCodec.ReadTable, m: map<nat, seq<Slot>>, p: MemParse)
    requires Blocks(m) && count > 0 && p == ParseRecord(s, table, m) && p.ok
    ensures Blocks(p.mem) && ParseBlocks(count, s, table, m) == ParseBlocks(count - 1, p.rest, p.table, p.mem)
  {
  }

  /** A record the recording side wrote for a new address adds its block unchanged. */
  lemma ParseRecordSerialized(b: seq<Slot>, a: UInt64, acc: map<nat, seq<Slot>>, rest: seq<Byte>, table: ExprCodec.ReadTable)
    requires W.IsBlock(b) && Blocks(acc) && a !in acc
    ensures var r := ParseRecord(U64Bytes(a) + W.BlockBytes(b) + rest, table, acc);
      r.ok && r.rest == rest && r.mem == acc[a := b]
  {
    var s := U64Bytes(a) + W.BlockBytes(b) + rest;
    assert s[..8] == U64Bytes(a);
    assert s[8..] == W.BlockBytes(b) + rest;
    FieldRoundTrips(a, 0, 0, 0);
    ParseBlockSerialized(b, W.EmptyBlock(), rest, table);
  }

  /** Laying blocks of `m` over blocks already equal to `m`'s keeps them equal, and adds every listed address. */
  lemma {:induction false} AddAllBlocks(acc: map<nat, seq<Slot>>, m: map<nat, seq<Slot>>, order: seq<nat>)
    requires forall k | 0 <= k < |order| :: order[k] in m
    requires forall a | a in acc :: a in m && acc[a] == m[a]
    ensures forall a | a in AddBlocks(acc, m, order) :: a in m && AddBlocks(acc, m, order)[a] == m[a]
    ensures forall a | a in acc || a in order :: a in AddBlocks(acc, m, order)
    decreases |order|
  {
    if order != [] {
      forall k | 0 <= k < |order[1..]|
        ensures order[1..][k] in m
      {
        assert order[1..][k] == order[k + 1];
      }
      AddAllBlocks(acc[order[0] := m[order[0]]], m, order[1..]);
      forall a | a in order
        ensures a == order[0] || a in order[1..]
      {
        var k :| 0 <= k < |order| && order[k] == a;
        if k > 0 {
          assert order[1..][k - 1] == a;
        }
      }
    }
  }

  /**
   * The search reads back the memory the recording side wrote: parsing
   * `Serialize`'s bytes, with the blocks in any order that lists each once,
   * into an empty memory succeeds, stops after them and gives back every
   * block with every expression, ids included.
   */
  lemma ParseMemSerialized(m: map<nat, seq<Slot>>, order: seq<nat>, rest: seq<Byte>, table: ExprCodec.ReadTable)
    requires W.ValidMem(m) && |order| < TWO_64 && Distinct(order)
    requires (forall k | 0 <= k < |order| :: order[k] in m) && forall a | a in m :: a in order
    ensures var r := ParseMem(W.MemBytes(m, order) + rest, table, map[]);
      r.ok && r.rest == rest && r.mem == m
  {
    MemBytesSplit(m, order, rest);
    ParseBlocksSerialized(m, order, |order|, map[], rest, table);
    AddEveryBlock(m, order);
  }

  /** The memory's serialisation is its block count followed by its records. */
  lemma MemBytesSplit(m: map<nat, seq<Slot>>, order: seq<nat>, rest: seq<Byte>)
    requires W.ValidMem(m) && |order| < TWO_64 && forall k | 0 <= k < |order| :: order[k] in m
    ensures var s := W.MemBytes(m, order) + rest;
      |s| >= 8 && ReadU64(s[..8]) == |order| && s[8..] == W.BlocksBytes(m, order) + rest
  {
    var bs := W.MemBytes(m, order);
    assert bs == U64Bytes(|order|) + W.BlocksBytes(m, order);
    var s := bs + rest;
    assert s[..8] == U64Bytes(|order|);
    assert s[8..] == W.BlocksBytes(m, order) + rest;
    FieldRoundTrips(|order|, 0, 0, 0);
  }

  /** Laying the blocks of `m` at every one of its addresses over the empty memory gives `m`. */
  lemma AddEveryBlock(m: map<nat, seq<Slot>>, order: seq<nat>)
    requires (forall k | 0 <= k < |order| :: order[k] in m) && forall a | a in m :: a in order
    ensures AddBlocks(map[], m, order) == m
  {
    AddAllBlocks(map[], m, order);
  }

  // --------------------------------------------------- MemElem, step by step

  /** The covering search of `MemElem::read`. */
  method FindCover(b: seq<Slot>, i: nat) returns (j: nat)
    requires |b| == CAPACITY && i < CAPACITY
    ensures j == CoverBelow(b, i)
  {
    j := i;
    while j != 0 && b[j].None?
      invariant j <= i && CoverBelow(b, j) == CoverBelow(b, i)
      decreases j
    {
      j := j - 1;
    }
  }

  /** One round of the forward scan's do-while. */
  method ScanStep(w: seq<Slot>, i: nat, n: nat, val: Value, j: nat, ret: Option<Expr>) returns (r: Option<Expr>)
    requires W.ScanState(w, i, n, j, ret)
    ensures r == Step(w, i, n, val, j, ret)
  {
    if w[i + j].Some? {
      var c := Strip(w[i + j].value);
      r := Some(if ret.None? then c else S.Concatenate(ret.value, c));
    } else {
      var k := W.SkipEmpty(w, i, j, n);
      if ret.None? {
        if k == n {
          return None;
        }
        r := Some(S.ExtractBytesOfValue(val, 0, k));
      } else {
        var t := S.ExtractBytesOfValue(val, ret.value.size, k - ret.value.size);
        r := Some(S.Concatenate(ret.value, t));
      }
    }
  }

  /** The forward scan's `do … while (j < n)` over the window `w`. */
  method ScanWindow(w: seq<Slot>, i: nat, n: nat, val: Value) returns (r: Option<Expr>)
    requires W.ScanState(w, i, n, 0, None)
    ensures r == Scan(w, i, n, val, 0, None)
  {
    var ret: Option<Expr> := None;
    var j := 0;
    while true
      invariant W.ScanState(w, i, n, j, ret)
      invariant Scan(w, i, n, val, j, ret) == Scan(w, i, n, val, 0, None)
      decreases n - j
    {
      var st := ScanStep(w, i, n, val, j, ret);
      if st.None? {
        return None;
      }
      if st.value.size >= n {
        return st;
      }
      ret, j := st, st.value.size;
    }
  }

  /** The search's `MemElem::read`, with the forward scan reading the window `b + nb`. */
  method ReadElem(b: seq<Slot>, nb: seq<Slot>, i: nat, n: nat, val: Value) returns (r: Option<Expr>)
    requires W.IsBlock(b) && W.IsBlock(nb) && i < CAPACITY && 1 <= n <= CAPACITY
    ensures r == ReadBlock(b, nb, i, n, val)
  {
    var j := FindCover(b, i);
    if b[j].Some? && b[j].value.size > n && j + b[j].value.size > i {
      return Some(S.ExtractBytes(Strip(b[j].value), i - j, n));
    }
    r := ScanWindow(b + nb, i, n, val);
  }

  /** The slot loop of `MemElem::Parse`, testing bit `31 - k` of the bitmap for slot `k`. */
  method ParseElemSlots(c: nat, s: seq<Byte>, table: ExprCodec.ReadTable, b: seq<Slot>)
    returns (ok: bool, block: seq<Slot>, rest: seq<Byte>, table': ExprCodec.ReadTable, aborted: bool)
    requires |b| == CAPACITY
    ensures BlockParse(ok, block, rest, table', aborted) == ParseSlots(Occupancy(c), s, table, b, 0)
  {
    ghost var present := Occupancy(c);
    ghost var goal := ParseSlots(present, s, table, b, 0);
    block, rest, table' := b, s, table;
    for k := 0 to CAPACITY
      invariant |block| == CAPACITY
      invariant ParseSlots(present, rest, table', block, k) == goal
    {
      OccupancyBit(c, k);
      if BitField(c, 31 - k, 1) != 1 {
        continue;
      }
      var p := ExprCodec.Parse(rest, table');
      if !p.Parsed? {
        return false, block[k := None], rest, table', p.Aborted?;
      }
      block, rest, table' := block[k := Some(p.expr)], p.rest, p.table;
    }
    ok, aborted := true, false;
  }

  /** `MemElem::Parse` into block `b`. */
  method ParseElem(s: seq<Byte>, table: ExprCodec.ReadTable, b: seq<Slot>)
    returns (ok: bool, block: seq<Slot>, rest: seq<Byte>, table': ExprCodec.ReadTable, aborted: bool)
    requires |b| == CAPACITY
    ensures BlockParse(ok, block, rest, table', aborted) == ParseBlock(s, table, b)
  {
    if |s| < 4 {
      return false, b, s, table, false;
    }
    var c := ReadU32(s[..4]);
    ok, block, rest, table', aborted := ParseElemSlots(c, s[4..], table, b);
  }

  /** One record of `SymbolicMemory::Parse`. */
  method ParseOne(s: seq<Byte>, table: ExprCodec.ReadTable, m: map<nat, seq<Slot>>) returns (r: MemParse)
    requires Blocks(m)
    ensures r == ParseRecord(s, table, m)
  {
    if |s| < 8 {
      return MemParse(false, m, s, table, false);
    }
    var addr := ReadU64(s[..8]);
    var b := W.EmptyBlock();
    if addr in m {
      b := m[addr];
    }
    var ok, block, rest, table', aborted := ParseElem(s[8..], table, b);
    r := MemParse(ok, m[addr := block], rest, table', aborted);
  }

  /** One turn of the record loop: parse the next record, and say what is left to parse. */
  method NextRecord(left: nat, s: seq<Byte>, table: ExprCodec.ReadTable, m: map<nat, seq<Slot>>) returns (p: MemParse)
    requires Blocks(m) && left > 0
    ensures Blocks(p.mem)
    ensures p.ok ==> ParseBlocks(left, s, table, m) == ParseBlocks(left - 1, p.rest, p.table, p.mem)
    ensures !p.ok ==> ParseBlocks(left, s, table, m) == p
  {
    p := ParseOne(s, table, m);
    if p.ok {
      ParseBlocksOk(left, s, table, m, p);
    } else {
      ParseBlocksFail(left, s, table, m, p);
    }
  }

  /** The record loop of `SymbolicMemory::Parse`. */
  method ParseRecords(count: nat, s: seq<Byte>, table: ExprCodec.ReadTable, m: map<nat, seq<Slot>>) returns (r: MemParse)
    requires Blocks(m)
    ensures r == ParseBlocks(count, s, table, m)
  {
    ghost var goal := ParseBlocks(count, s, table, m);
    var mem, rest, tbl, left := m, s, table, count;
    while left > 0
      invariant Blocks(mem)
      invariant ParseBlocks(left, rest, tbl, mem) == goal
    {
      var p := NextRecord(left, rest, tbl, mem);
      if !p.ok {
        return p;
      }
      mem, rest, tbl, left := p.mem, p.rest, p.table, left - 1;
    }
    r := MemParse(true, mem, rest, tbl, false);
  }

  // ------------------------------------------------------ the memory itself

  /**
   * `SymbolicMemory`: the recorded symbolic bytes as the search holds them,
   * a map from block addresses to blocks of 32 slots.
   */
  class SymbolicMemory {
    var mem: map<nat, seq<Slot>>

    ghost predicate Valid()
      reads this
    {
      Blocks(mem)
    }

    constructor ()
      ensures Valid() && mem == map[]
    {
      mem := map[];
    }

    /**
     * `read(addr, val)`, on a memory whose blocks are block-aligned and whose
     * expressions have the sizes the recording side stores. `ParseMem` does
     * not give this for arbitrary bytes; `ParseMemSerialized` gives it for a
     * memory parsed from what the recording side wrote.
     */
    method Read(addr: nat, val: Value) returns (r: Option<Expr>)
      requires W.ValidMem(mem) && IsTypeTag(val.ty)
      ensures r == MemRead(mem, addr, val)
    {
      if val.ty == STRUCT {
        return None;
      }
      if W.Base(addr) !in mem {
        return None;
      }
      var nb := W.EmptyBlock();
      if W.Base(addr) + CAPACITY in mem {
        nb := mem[W.Base(addr) + CAPACITY];
      }
      r := ReadElem(mem[W.Base(addr)], nb, W.Offset(addr), W.F.TypeSize(val), val);
    }

    /**
     * `Parse(s)`: the block count, then `(address, block)` records parsed
     * into the map; the read table is threaded through every expression.
     */
    method Parse(s: seq<Byte>, table: ExprCodec.ReadTable) returns (ok: bool, rest: seq<Byte>, table': ExprCodec.ReadTable, aborted: bool)
      requires Valid()
      modifies this
      ensures Valid() && MemParse(ok, mem, rest, table', aborted) == ParseMem(s, table, old(mem))
    {
      if |s| < 8 {
        return false, s, table, false;
      }
      var r := ParseRecords(ReadU64(s[..8]), s[8..], table, mem);
      ok, mem, rest, table', aborted := r.ok, r.mem, r.rest, r.table, r.aborted;
    }
  }
}
