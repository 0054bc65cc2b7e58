/**
 * `SymbolicMemoryWriter`: the recording library's byte-slot memory. Memory is
 * split into 32-byte blocks (`MemElem`) keyed by their base address; slot `k`
 * of a block holds the expression whose lowest byte is at `base + k`, or
 * nothing when those bytes are concrete. Every expression a read or write
 * builds, copies included, takes fresh ids from the global counter.
 */
module MemoryWriter {
  import opened Wrappers
  import opened BasicTypes
  import opened Arith
  import opened Exprs
  import opened Bytes
  import ExprCodec
  import F = WriterFactory

  /** `kMemElemCapacity`. */
  const CAPACITY: nat := 32

  /**
   * Slot expressions are at least one byte wide and below 2^63 bytes, so
   * that the `size_t` sums a read forms never wrap.
   */
  const MAX_SLOT_SIZE: nat := 0x8000_0000_0000_0000

  type Slot = Option<Expr>

  predicate SlotOk(s: Slot) {
    s.Some? ==> 1 <= s.value.size < MAX_SLOT_SIZE
  }

  predicate IsBlock(b: seq<Slot>) {
    |b| == CAPACITY && forall k | 0 <= k < |b| :: SlotOk(b[k])
  }

  /** `MemElem()`: every slot empty. */
  function EmptyBlock(): (b: seq<Slot>)
    ensures IsBlock(b) && forall k | 0 <= k < CAPACITY :: b[k].None?
  {
    seq(CAPACITY, _ => None)
  }

  /** `addr & kAddrMask` and `addr & kOffsetMask`. */
  function Base(addr: nat): (a: nat)
    ensures a % CAPACITY == 0 && a <= addr < a + CAPACITY
  {
    addr - addr % CAPACITY
  }

  function Offset(addr: nat): (i: nat)
    ensures i < CAPACITY && Base(addr) + i == addr
  {
    addr % CAPACITY
  }

  // ------------------------------------------------ the covering expression

  /** `j & (j - 1)`: `j` with its lowest set bit cleared. */
  function ClearLowestBit(j: nat): (r: nat)
    requires j < CAPACITY
    ensures r <= j && (j > 0 ==> r < j)
  {
    ((j as bv8) & ((j as bv8) - 1)) as int
  }

  /**
   * The search for an expression that may cover offset `j`: drop low set
   * bits of the offset until a slot is occupied or offset 0 is reached.
   */
  function CoverFrom(b: seq<Slot>, j: nat): (r: nat)
    requires |b| == CAPACITY && j < CAPACITY
    ensures r <= j && (r == 0 || b[r].Some?)
    ensures b[j].Some? ==> r == j
    decreases j
  {
    if j == 0 || b[j].Some? then j else CoverFrom(b, ClearLowestBit(j))
  }

  /** The offsets the search visits from 13: 12, 8 and then 0, skipping 9 to 11. */
  lemma CoverFromSkips(b: seq<Slot>)
    requires |b| == CAPACITY && b[9].Some? && b[10].Some? && b[11].Some?
    requires b[13].None? && b[12].None? && b[8].None?
    ensures CoverFrom(b, 13) == 0
  {
    assert ClearLowestBit(13) == 12 && ClearLowestBit(12) == 8 && ClearLowestBit(8) == 0;
  }

  /** Slot `j` holds an expression larger than `n` bytes that reaches offset `i`. */
  predicate CoversAt(b: seq<Slot>, j: nat, i: nat, n: nat)
    requires |b| == CAPACITY && j < CAPACITY
  {
    b[j].Some? && b[j].value.size > n && j + b[j].value.size > i
  }

  // ------------------------------------------------------------ MemElem::read

  /** What a read hands back: the expression (none when the bytes are concrete) and the id counter after it. */
  datatype Got = Got(expr: Option<Expr>, next: nat)

  /** The 64-slot window a read scans: the block followed by the next one. */
  predicate IsWindow(w: seq<Slot>) {
    |w| == 2 * CAPACITY && forall k | 0 <= k < |w| :: SlotOk(w[k])
  }

  /**
   * The inner `while ((++j < n) && slot(i + j) == NULL)`: the first `k >= j`
   * that reaches `n` or an occupied slot.
   */
  function RunEnd(w: seq<Slot>, i: nat, j: nat, n: nat): (k: nat)
    requires |w| == 2 * CAPACITY && i + n <= |w| && j <= n
    ensures j <= k <= n && (k < n ==> w[i + k].Some?)
    decreases n - j
  {
    if j == n || w[i + j].Some? then j else RunEnd(w, i, j + 1, n)
  }

  lemma {:induction false} RunEndEmpty(w: seq<Slot>, i: nat, j: nat, n: nat)
    requires |w| == 2 * CAPACITY && i + n <= |w| && j <= n
    ensures RunEnd(w, i, j, n) == n <==> forall x | i + j <= x < i + n :: w[x].None?
    decreases n - j
  {
    if j < n && w[i + j].None? {
      RunEndEmpty(w, i, j + 1, n);
    }
  }

  /** Every occupied slot of the read window `[i + j, i + n)` ends within it. */
  predicate EndsWithin(w: seq<Slot>, i: nat, j: nat, n: nat)
    requires |w| == 2 * CAPACITY && i + n <= |w|
  {
    forall x | i + j <= x < i + n :: w[x].Some? ==> x + w[x].value.size <= i + n
  }

  /** The window `[i + j, i + n)` is all concrete. */
  predicate AllEmpty(w: seq<Slot>, i: nat, j: nat, n: nat)
    requires |w| == 2 * CAPACITY && i + n <= |w|
  {
    forall x | i + j <= x < i + n :: w[x].None?
  }

  /** A read in progress: the first `j` bytes are in `ret`, none while they are all concrete. */
  predicate ScanState(w: seq<Slot>, i: nat, n: nat, j: nat, ret: Option<Expr>) {
    IsWindow(w) && i < CAPACITY && 1 <= n <= CAPACITY && j < n &&
    (ret.None? ==> j == 0) && (ret.Some? ==> ret.value.size == j)
  }

  /**
   * One round of the forward scan's `do … while (j < n)` from byte `j`: an
   * occupied slot is copied and appended; a run of empty slots up to the
   * next occupied one (or the end of the read) becomes a constant cut from
   * the read's concrete value `val`. Nothing comes back when the read so
   * far and the whole rest of the window are concrete.
   */
  function Step(w: seq<Slot>, i: nat, n: nat, val: Value, j: nat, ret: Option<Expr>, next: nat): (r: Option<Numbered>)
    requires ScanState(w, i, n, j, ret)
    ensures r.Some? ==> r.value.expr.size > j && r.value.next >= next
    ensures r.None? <==> ret.None? && AllEmpty(w, i, j, n)
    ensures r.Some? && EndsWithin(w, i, j, n) ==> r.value.expr.size <= n
  {
    var s := w[i + j];
    if s.Some? then
      var c := Clone(s.value, next);
      Some(if ret.None? then c else F.Concatenate(ret.value, c.expr, c.next))
    else
      var k := RunEnd(w, i, j + 1, n);
      RunEndEmpty(w, i, j + 1, n);
      if ret.None? && k == n then None
      else if ret.None? then Some(F.ExtractBytesOfValue(val, 0, k, next))
      else
        var t := F.ExtractBytesOfValue(val, j, k - j, next);
        Some(F.Concatenate(ret.value, t.expr, t.next))
  }

  /** The forward scan of `MemElem::read` from byte `j` of the read. */
  function Scan(w: seq<Slot>, i: nat, n: nat, val: Value, j: nat, ret: Option<Expr>, next: nat): (r: Got)
    requires ScanState(w, i, n, j, ret)
    ensures r.next >= next
    decreases n - j
  {
    match Step(w, i, n, val, j, ret, next)
    case None => Got(None, next)
    case Some(x) =>
      if x.expr.size < n then Scan(w, i, n, val, x.expr.size, Some(x.expr), x.next)
      else Got(Some(x.expr), x.next)
  }

  /**
   * A scan result exists unless the read so far and the rest of the window
   * are concrete, and is at least `n` bytes wide: exactly `n` when no slot
   * reaches past the window.
   */
  lemma {:induction false} ScanResult(w: seq<Slot>, i: nat, n: nat, val: Value, j: nat, ret: Option<Expr>, next: nat)
    requires ScanState(w, i, n, j, ret)
    ensures var r := Scan(w, i, n, val, j, ret, next);
      (r.expr.None? <==> ret.None? && AllEmpty(w, i, j, n)) &&
      (r.expr.Some? ==> r.expr.value.size >= n) &&
      (r.expr.Some? && EndsWithin(w, i, j, n) ==> r.expr.value.size == n)
    decreases n - j
  {
    var st := Step(w, i, n, val, j, ret, next);
    if st.Some? && st.value.expr.size < n {
      var x := st.value;
      ScanResult(w, i, n, val, x.expr.size, Some(x.expr), x.next);
    }
  }

  /**
   * `MemElem::read(addr, n, val, next_elem)` at offset `i` of block `b`,
   * with `nb` the next block (an empty one when absent). A larger expression
   * found by the covering search gives an EXTRACT of it at `i - j`;
   * otherwise the forward scan decides.
   */
  function ReadBlock(b: seq<Slot>, nb: seq<Slot>, i: nat, n: nat, val: Value, next: nat): (r: Got)
    requires IsBlock(b) && IsBlock(nb) && i < CAPACITY && 1 <= n <= CAPACITY
    ensures var j := CoverFrom(b, i);
      CoversAt(b, j, i, n) ==>
        r.expr.Some? && r.expr.value.Binary? && r.expr.value.bin == EXTRACT &&
        Strip(r.expr.value.left) == Strip(b[j].value) && F.ExtractOffset(r.expr.value) == i - j &&
        r.expr.value.size == n
    ensures r.expr.None? <==> !CoversAt(b, CoverFrom(b, i), i, n) && AllEmpty(b + nb, i, 0, n)
    ensures r.expr.Some? ==> r.expr.value.size >= n
    ensures !CoversAt(b, CoverFrom(b, i), i, n) && EndsWithin(b + nb, i, 0, n) && r.expr.Some? ==>
      r.expr.value.size == n
    ensures r.next >= next
  {
    var j := CoverFrom(b, i);
    if CoversAt(b, j, i, n) then
      var c := Clone(b[j].value, next);
      CloneStrip(b[j].value, next);
      var x := F.ExtractBytes(c.expr, i - j, n, c.next);
      Got(Some(x.expr), x.next)
    else
      ScanResult(b + nb, i, n, val, 0, None, next);
      Scan(b + nb, i, n, val, 0, None, next)
  }

  // ----------------------------------------------------------- MemElem::write

  /**
   * The offsets the split loop of `MemElem::write` stores pieces at, as the
   * source iterates it: `j + k` for `k = n, 2n, …` below `size`, with
   * nothing that keeps `j + k` inside the block.
   */
  function SplitTargetsAsWritten(j: nat, size: nat, n: nat, k: nat): (t: seq<nat>)
    requires n >= 1
    ensures forall x | x in t :: j + k <= x < j + size
    decreases size - k
  {
    if k >= size then [] else [j + k] + SplitTargetsAsWritten(j, size, n, k + n)
  }

  /**
   * An 8-byte expression at offset 28 (its last four bytes in the next
   * block) overwritten by a 4-byte value at 28: the second piece goes to
   * slot 32, past the end of the 32-slot array.
   */
  lemma SplitPastBlock()
    ensures SplitTargetsAsWritten(28, 8, 4, 4) == [32]
  {
  }

  /** `x` is one of the slots the split of the expression at `j` covers: a multiple of `n` past `j`. */
  predicate SplitPos(j: nat, size: nat, n: nat, x: nat)
    requires n >= 1
  {
    j <= x < j + size && (x - j) % n == 0
  }

  /** Slot `s` holds an `n`-byte EXTRACT at byte `off` of a copy of `tmp`. */
  predicate IsPiece(s: Slot, tmp: Expr, off: nat, n: nat) {
    s.Some? && s.value.Binary? && s.value.bin == EXTRACT && s.value.size == n &&
    Strip(s.value.left) == Strip(tmp) && F.ExtractOffset(s.value) == off
  }

  /** The piece the split loop stores for byte `k`: EXTRACT(copy of `tmp`, k, n). */
  function Piece(tmp: Expr, k: nat, n: nat, next: nat): (r: Numbered)
    requires 1 <= n < MAX_SLOT_SIZE && k < MAX_SLOT_SIZE
    ensures IsPiece(Some(r.expr), tmp, k, n) && SlotOk(Some(r.expr)) && r.next >= next
  {
    var c := Clone(tmp, next);
    CloneStrip(tmp, next);
    F.ExtractBytesOffset(c.expr, k, n, c.next);
    F.ExtractBytes(c.expr, k, n, c.next)
  }

  /**
   * The split loop from `k` on, kept inside the block: slot `j + k` gets
   * its piece, then `k` moves on by `n`.
   */
  function SplitFrom(b: seq<Slot>, j: nat, tmp: Expr, n: nat, k: nat, next: nat): (r: (seq<Slot>, nat))
    requires |b| == CAPACITY && 1 <= n < tmp.size < MAX_SLOT_SIZE
    ensures |r.0| == CAPACITY && r.1 >= next
    ensures IsBlock(b) ==> IsBlock(r.0)
    decreases tmp.size - k
  {
    if k >= tmp.size || j + k >= CAPACITY then (b, next)
    else
      var p := Piece(tmp, k, n, next);
      SplitFrom(b[j + k := Some(p.expr)], j, tmp, n, k + n, p.next)
  }

  /** After the split loop from `k`, slot `x` holds its piece if the loop reached it, and is unchanged otherwise. */
  lemma {:induction false} SplitFromAt(b: seq<Slot>, j: nat, tmp: Expr, n: nat, k: nat, next: nat, x: nat)
    requires IsBlock(b) && 1 <= n < tmp.size < MAX_SLOT_SIZE && k % n == 0 && x < CAPACITY
    ensures j + k <= x && SplitPos(j, tmp.size, n, x) ==> IsPiece(SplitFrom(b, j, tmp, n, k, next).0[x], tmp, x - j, n)
    ensures !(j + k <= x && SplitPos(j, tmp.size, n, x)) ==> SplitFrom(b, j, tmp, n, k, next).0[x] == b[x]
    decreases tmp.size - k
  {
    if k < tmp.size && j + k < CAPACITY {
      var p := Piece(tmp, k, n, next);
      var b' := b[j + k := Some(p.expr)];
      SplitFromStep(b, j, tmp, n, k, next);
      SplitPosStep(j, tmp.size, n, k, x);
      SplitFromAt(b', j, tmp, n, k + n, p.next, x);
      if x == j + k {
        assert b'[x] == Some(p.expr);
      } else {
        assert b'[x] == b[x];
      }
    }
  }

  /** One turn of the split loop: the piece for byte `k` goes to slot `j + k`. */
  lemma SplitFromStep(b: seq<Slot>, j: nat, tmp: Expr, n: nat, k: nat, next: nat)
    requires |b| == CAPACITY && 1 <= n < tmp.size < MAX_SLOT_SIZE && k < tmp.size && j + k < CAPACITY
    ensures var p := Piece(tmp, k, n, next);
      SplitFrom(b, j, tmp, n, k, next) == SplitFrom(b[j + k := Some(p.expr)], j, tmp, n, k + n, p.next)
  {
  }

  /** The split positions from `k` on are `j + k` and those from `k + n` on. */
  lemma SplitPosStep(j: nat, size: nat, n: nat, k: nat, x: nat)
    requires 1 <= n && k % n == 0
    ensures (k + n) % n == 0
    ensures (j + k <= x && SplitPos(j, size, n, x)) ==
            ((x == j + k && k < size) || (j + k + n <= x && SplitPos(j, size, n, x)))
  {
    ModStep(k, 0, n);
    if j + k < x < j + k + n {
      ModStep(k, x - j - k, n);
    }
  }

  /** The block with the in-block slots of `[i, i + n)` emptied. */
  function Cleared(b: seq<Slot>, i: nat, n: nat): (r: seq<Slot>)
    requires IsBlock(b)
    ensures IsBlock(r)
    ensures forall x | 0 <= x < CAPACITY :: r[x] == if i <= x < i + n then None else b[x]
  {
    seq(CAPACITY, x requires 0 <= x < CAPACITY => if i <= x < i + n then None else b[x])
  }

  /**
   * The first half of `MemElem::write(addr, n, e)` at offset `i`: a larger
   * expression that the covering search finds overlapping the write is cut
   * into `n`-byte pieces, the first of them over the original.
   */
  function SplitCover(b: seq<Slot>, i: nat, n: nat, next: nat): (r: (seq<Slot>, nat))
    requires IsBlock(b) && i < CAPACITY && 1 <= n
    ensures IsBlock(r.0) && r.1 >= next
  {
    var j := CoverFrom(b, i);
    if CoversAt(b, j, i, n) then
      var tmp := b[j].value;
      var x := F.ExtractBytes(tmp, 0, n, next);
      SplitFrom(b[j := Some(x.expr)], j, tmp, n, n, x.next)
    else (b, next)
  }

  /** After the split, a slot holds its piece of the expression that was cut up, or is unchanged. */
  lemma SplitCoverAt(b: seq<Slot>, i: nat, n: nat, next: nat, x: nat)
    requires IsBlock(b) && i < CAPACITY && 1 <= n && x < CAPACITY
    ensures var j := CoverFrom(b, i); var r := SplitCover(b, i, n, next).0;
      if CoversAt(b, j, i, n) && SplitPos(j, b[j].value.size, n, x) then IsPiece(r[x], b[j].value, x - j, n)
      else r[x] == b[x]
  {
    var j := CoverFrom(b, i);
    if CoversAt(b, j, i, n) {
      var tmp := b[j].value;
      var p := F.ExtractBytes(tmp, 0, n, next);
      ModStep(0, 0, n);
      SplitFromAt(b[j := Some(p.expr)], j, tmp, n, n, p.next, x);
      if j < x < j + n && x - j < tmp.size {
        ModStep(0, x - j, n);
      }
    }
  }

  /**
   * `MemElem::write(addr, n, e)` at offset `i` (`e` none for concretize):
   * after the split, the in-block slots of the write are emptied and slot
   * `i` takes `e`.
   */
  function WriteBlock(b: seq<Slot>, i: nat, n: nat, e: Slot, next: nat): (r: (seq<Slot>, nat))
    requires IsBlock(b) && i < CAPACITY && 1 <= n && SlotOk(e)
    ensures IsBlock(r.0) && r.1 >= next
    ensures r.0[i] == e
    ensures forall x | i < x < i + n && x < CAPACITY :: r.0[x].None?
  {
    var split := SplitCover(b, i, n, next);
    (Cleared(split.0, i, n)[i := e], split.1)
  }

  /**
   * Outside the written range, a slot holds its piece of the larger
   * expression the write cut up, or is unchanged.
   */
  lemma WriteBlockAt(b: seq<Slot>, i: nat, n: nat, e: Slot, next: nat, x: nat)
    requires IsBlock(b) && i < CAPACITY && 1 <= n && SlotOk(e) && x < CAPACITY && (x < i || x >= i + n)
    ensures var j := CoverFrom(b, i); var r := WriteBlock(b, i, n, e, next).0;
      if CoversAt(b, j, i, n) && SplitPos(j, b[j].value.size, n, x) then IsPiece(r[x], b[j].value, x - j, n)
      else r[x] == b[x]
  {
    SplitCoverAt(b, i, n, next, x);
  }

  // ------------------------------------------------- the inner scan's bound

  /**
   * The slots the inner `while ((++j < n) && slots_[i + j] == NULL)` of the
   * in-block half of the scan probes in the block's own 32-slot array, when
   * it starts at byte `j` and every probed slot is empty: `i + j + 1` up to
   * `i + n - 1`, with nothing that stops at the end of the array. The
   * search side's `MemElem::read` repeats the same loop.
   */
  function InnerProbesAsWritten(i: nat, j: nat, n: nat): (t: seq<nat>)
    ensures forall x | x in t :: i + j < x < i + n
    decreases n - j
  {
    if j + 1 >= n then [] else [i + j + 1] + InnerProbesAsWritten(i, j + 1, n)
  }

  /**
   * A 4-byte read at offset 30 of a block whose slots 30 and 31 are empty:
   * the in-block scan probes slots 32 and 33 of a 32-slot array, where the
   * window model reads slots 0 and 1 of the next block.
   */
  lemma InnerProbesPastBlock()
    ensures InnerProbesAsWritten(30, 0, 4) == [31, 32, 33]
  {
  }

  // ------------------------------------------------------------- concretize

  /** The chunk sizes concretize works in: powers of two up to a block. */
  predicate IsChunkSize(sz: nat) {
    sz == 1 || sz == 2 || sz == 4 || sz == 8 || sz == 16 || sz == 32
  }

  /**
   * `min(addr & -addr, 32)`: the largest power of two up to a block that
   * divides `addr`; a block-aligned address gives a whole block.
   */
  function Align(addr: nat): (sz: nat)
    ensures IsChunkSize(sz) && addr % sz == 0 && Offset(addr) + sz <= CAPACITY
  {
    ModFactor(addr, 2, 2);
    ModFactor(addr, 2, 16);
    ModFactor(addr, 4, 2);
    ModFactor(addr, 4, 8);
    ModFactor(addr, 8, 2);
    ModFactor(addr, 8, 4);
    ModFactor(addr, 16, 2);
    if addr % 2 == 1 then 1
    else if addr % 4 == 2 then 2
    else if addr % 8 == 4 then 4
    else if addr % 16 == 8 then 8
    else if addr % 32 == 16 then 16
    else 32
  }

  /** `min(addr & -addr, 32)` as written: `addr & -addr` is 0 at address 0. */
  function AlignAsWritten(addr: nat): (sz: nat)
    ensures addr == 0 ==> sz == 0
    ensures addr > 0 ==> sz == Align(addr)
  {
    if addr == 0 then 0 else Align(addr)
  }

  /** `while (sz > limit) sz >>= 1;` */
  function Shrink(sz: nat, limit: nat): (r: nat)
    ensures r <= sz && (r <= limit || r == 0)
    ensures 1 <= sz && 1 <= limit ==> 1 <= r
  {
    if sz > limit then Shrink(sz / 2, limit) else sz
  }

  /** Halving keeps a power-of-two chunk aligned. */
  lemma {:induction false} ShrinkAligned(addr: nat, sz: nat, limit: nat)
    requires IsChunkSize(sz) && addr % sz == 0 && 1 <= limit
    ensures IsChunkSize(Shrink(sz, limit)) && addr % Shrink(sz, limit) == 0
  {
    if sz > limit {
      var h := sz / 2;
      assert h * 2 == sz && IsChunkSize(h);
      ModFactor(addr, h, 2);
      ShrinkAligned(addr, h, limit);
    }
  }

  /** A span of `size` bytes at `addr` that concretize empties with one block write. */
  datatype Chunk = Chunk(addr: nat, size: nat)

  /** One round of `concretize`'s do-while: the chunk it clears (none for an absent block) and where it goes on from. */
  datatype Round = Round(chunk: Option<Chunk>, addr: nat, left: int)

  /**
   * A round from `addr` with `left` bytes to go: an absent block is skipped
   * to its end; in a present one a chunk of `sz` bytes is cleared.
   */
  function NextRound(keys: set<nat>, addr: nat, sz: nat, left: int): (r: Round)
    ensures r.chunk.Some? <==> Base(addr) in keys
    ensures r.chunk.None? ==> r.addr == Base(addr) + CAPACITY && r.left == left - (r.addr - addr)
    ensures r.chunk.Some? ==> r.chunk.value == Chunk(addr, sz) && r.addr == addr + sz && r.left == left - sz
  {
    if Base(addr) !in keys then Round(None, Base(addr) + CAPACITY, left - (CAPACITY - Offset(addr)))
    else Round(Some(Chunk(addr, sz)), addr + sz, left - sz)
  }

  /** The chunks a round contributes. */
  function ChunkOf(r: Round): (cs: seq<Chunk>)
    ensures |cs| <= 1 && (r.chunk.Some? ==> cs == [r.chunk.value])
  {
    if r.chunk.Some? then [r.chunk.value] else []
  }

  /**
   * The chunks `concretize(addr, n)` clears as written, over its first `fuel`
   * rounds: the aligned size is shrunk against the original `n` instead of
   * the bytes `left`, and is 0 at address 0.
   */
  function ChunksAsWritten(keys: set<nat>, addr: nat, n: nat, left: int, fuel: nat): (cs: seq<Chunk>)
    ensures |cs| <= fuel
    decreases fuel
  {
    if fuel == 0 then []
    else
      var r := NextRound(keys, addr, Shrink(AlignAsWritten(addr), n), left);
      ChunkOf(r) + if r.left > 0 then ChunksAsWritten(keys, r.addr, n, r.left, fuel - 1) else []
  }

  /** At address 0, in a present block, a round clears nothing and leaves the address and count where they were. */
  lemma ConcretizeStuckAtZero(keys: set<nat>, n: nat, left: int)
    requires 0 in keys
    ensures NextRound(keys, 0, Shrink(AlignAsWritten(0), n), left) == Round(Some(Chunk(0, 0)), 0, left)
  {
  }

  /**
   * `concretize(4, 8)` in block 0: the second chunk is shrunk against 8
   * rather than the 4 bytes left and clears bytes 8 to 15, past the end of
   * the range at 11.
   */
  lemma ConcretizeOvershoots()
    ensures ChunksAsWritten({0}, 4, 8, 8, 2) == [Chunk(4, 4), Chunk(8, 8)]
    ensures Shrink(Align(8), 4) == 4
  {
    assert Align(4) == 4 && Align(8) == 8;
    assert NextRound({0}, 4, 4, 8) == Round(Some(Chunk(4, 4)), 8, 4);
    assert NextRound({0}, 8, 8, 4) == Round(Some(Chunk(8, 8)), 16, -4);
  }

  /**
   * The chunks `concretize(addr, n)` clears with the size aligned to the
   * block at address 0 too, and shrunk against the bytes left.
   */
  function Chunks(keys: set<nat>, addr: nat, left: int): (cs: seq<Chunk>)
    decreases left
  {
    if left <= 0 then []
    else
      var r := NextRound(keys, addr, Shrink(Align(addr), left), left);
      ChunkOf(r) + Chunks(keys, r.addr, r.left)
  }

  /** A chunk lies in one present block, is a power of two, and is aligned to its size. */
  predicate ChunkOk(keys: set<nat>, c: Chunk) {
    Base(c.addr) in keys && IsChunkSize(c.size) && c.addr % c.size == 0 && Offset(c.addr) + c.size <= CAPACITY
  }

  /** The chunks, in order, fit the blocks at `keys`. */
  predicate ChunksFit(keys: set<nat>, cs: seq<Chunk>) {
    forall k | 0 <= k < |cs| :: ChunkOk(keys, cs[k])
  }

  /** The chunks lie in `[addr, addr + left)`, in increasing address order without overlap. */
  predicate ChunksInRange(cs: seq<Chunk>, addr: nat, left: int) {
    (forall k | 0 <= k < |cs| :: addr <= cs[k].addr && cs[k].addr + cs[k].size <= addr + left) &&
    (forall k | 0 <= k < |cs| - 1 :: cs[k].addr + cs[k].size <= cs[k + 1].addr)
  }

  /** Every chunk is well formed and lies in `[addr, addr + left)`, and the chunks do not overlap. */
  lemma {:induction false} ChunksWithin(keys: set<nat>, addr: nat, left: int)
    ensures ChunksFit(keys, Chunks(keys, addr, left)) && ChunksInRange(Chunks(keys, addr, left), addr, left)
    decreases left
  {
    if left > 0 {
      var sz := Shrink(Align(addr), left);
      ShrinkAligned(addr, Align(addr), left);
      var r := NextRound(keys, addr, sz, left);
      ChunksWithin(keys, r.addr, r.left);
      ChunksJoin(keys, ChunkOf(r), Chunks(keys, r.addr, r.left), addr, left, r.addr, r.left);
    }
  }

  /** At most one chunk of `[addr, a2)` ahead of the chunks of `[a2, addr + left)`. */
  lemma ChunksJoin(keys: set<nat>, c: seq<Chunk>, rest: seq<Chunk>, addr: nat, left: int, a2: nat, l2: int)
    requires |c| <= 1 && (|c| == 1 ==> ChunkOk(keys, c[0]) && addr <= c[0].addr && c[0].addr + c[0].size <= a2 && 0 <= l2)
    requires addr <= a2 && a2 + l2 == addr + left
    requires ChunksFit(keys, rest) && ChunksInRange(rest, a2, l2)
    ensures ChunksFit(keys, c + rest) && ChunksInRange(c + rest, addr, left)
  {
    FitJoin(keys, c, rest);
    RangeJoin(c, rest, addr, left, a2, l2);
  }

  lemma FitJoin(keys: set<nat>, c: seq<Chunk>, rest: seq<Chunk>)
    requires ChunksFit(keys, c) && ChunksFit(keys, rest)
    ensures ChunksFit(keys, c + rest)
  {
    var cs := c + rest;
    forall k | 0 <= k < |cs| ensures ChunkOk(keys, cs[k]) {
      if k < |c| {
        assert cs[k] == c[k];
      } else {
        assert cs[k] == rest[k - |c|];
      }
    }
  }

  lemma RangeJoin(c: seq<Chunk>, rest: seq<Chunk>, addr: nat, left: int, a2: nat, l2: int)
    requires |c| <= 1 && (|c| == 1 ==> addr <= c[0].addr && c[0].addr + c[0].size <= a2 && 0 <= l2)
    requires addr <= a2 && a2 + l2 == addr + left
    requires ChunksInRange(rest, a2, l2)
    ensures ChunksInRange(c + rest, addr, left)
  {
    var cs := c + rest;
    var n := |c|;
    forall k | 0 <= k < |cs| ensures addr <= cs[k].addr && cs[k].addr + cs[k].size <= addr + left {
      if k < n {
        assert cs[k] == c[0];
      } else {
        assert cs[k] == rest[k - n];
      }
    }
    forall k | 0 <= k < |cs| - 1 ensures cs[k].addr + cs[k].size <= cs[k + 1].addr {
      if k < n {
        assert cs[k] == c[0] && cs[k + 1] == rest[0];
      } else {
        assert cs[k] == rest[k - n] && cs[k + 1] == rest[k - n + 1];
      }
    }
  }

  /** The bytes of a block share its base address. */
  lemma SameBlock(a: nat, x: nat)
    requires Base(a) <= x < Base(a) + CAPACITY
    ensures Base(x) == Base(a)
  {
    DivModUnique(x, Base(a) / CAPACITY, x - Base(a), CAPACITY);
    DivModUnique(Base(a), Base(a) / CAPACITY, 0, CAPACITY);
  }

  predicate InSomeChunk(cs: seq<Chunk>, x: nat) {
    exists k | 0 <= k < |cs| :: cs[k].addr <= x < cs[k].addr + cs[k].size
  }

  /** Every byte of `[addr, addr + left)` in a present block lies in one of the chunks. */
  lemma {:induction false} ChunksCover(keys: set<nat>, addr: nat, left: int, x: nat)
    requires addr <= x < addr + left && Base(x) in keys
    ensures InSomeChunk(Chunks(keys, addr, left), x)
    decreases left
  {
    var sz := Shrink(Align(addr), left);
    var r := NextRound(keys, addr, sz, left);
    var cs := Chunks(keys, addr, left);
    var rest := Chunks(keys, r.addr, r.left);
    assert cs == ChunkOf(r) + rest;
    if r.chunk.Some? && x < addr + sz {
      assert cs[0].addr <= x < cs[0].addr + cs[0].size;
    } else {
      if r.chunk.None? && x < r.addr {
        SameBlock(addr, x);
      }
      ChunksCover(keys, r.addr, r.left, x);
      var k :| 0 <= k < |rest| && rest[k].addr <= x < rest[k].addr + rest[k].size;
      assert cs[|ChunkOf(r)| + k] == rest[k];
    }
  }

  // ------------------------------------------------------------ whole memory

  /** Blocks are keyed by block-aligned 64-bit addresses. */
  predicate ValidMem(m: map<nat, seq<Slot>>) {
    forall a | a in m :: a % CAPACITY == 0 && a < TWO_64 && IsBlock(m[a])
  }

  /** The block after the one holding `addr`, or an empty one when absent. */
  function NextBlock(m: map<nat, seq<Slot>>, addr: nat): (nb: seq<Slot>)
    requires ValidMem(m)
    ensures IsBlock(nb)
  {
    if Base(addr) + CAPACITY in m then m[Base(addr) + CAPACITY] else EmptyBlock()
  }

  /**
   * `SymbolicMemoryWriter::read(addr, val)`: nothing for a STRUCT value or
   * when the block holding `addr` is absent; otherwise a block read of
   * `kSizeOfType[val.type]` bytes that may spill into the next block.
   */
  function MemRead(m: map<nat, seq<Slot>>, addr: nat, val: Value, next: nat): (r: Got)
    requires ValidMem(m) && IsTypeTag(val.ty)
    ensures val.ty == STRUCT || Base(addr) !in m ==> r == Got(None, next)
    ensures val.ty != STRUCT && Base(addr) in m ==>
      r == ReadBlock(m[Base(addr)], NextBlock(m, addr), Offset(addr), kSizeOfType[val.ty], val, next)
  {
    var n := F.TypeSize(val);
    if n == 0 || Base(addr) !in m then Got(None, next)
    else ReadBlock(m[Base(addr)], NextBlock(m, addr), Offset(addr), n, val, next)
  }

  /**
   * `SymbolicMemoryWriter::write(addr, e)`: a block write of `e`'s size into
   * the block holding `addr`, created empty when absent.
   */
  function MemWrite(m: map<nat, seq<Slot>>, addr: nat, e: Expr, next: nat): (r: (map<nat, seq<Slot>>, nat))
    requires ValidMem(m) && addr < TWO_64 && SlotOk(Some(e))
    ensures ValidMem(r.0) && r.0.Keys == m.Keys + {Base(addr)} && r.1 >= next
    ensures forall a | a in m && a != Base(addr) :: r.0[a] == m[a]
    ensures r.0[Base(addr)][Offset(addr)] == Some(e)
    ensures forall x | Offset(addr) < x < Offset(addr) + e.size && x < CAPACITY :: r.0[Base(addr)][x].None?
  {
    var b := if Base(addr) in m then m[Base(addr)] else EmptyBlock();
    var w := WriteBlock(b, Offset(addr), e.size, Some(e), next);
    (m[Base(addr) := w.0], w.1)
  }

  /**
   * Reading a value as wide as the expression just written at the same
   * address gives back a copy of that expression.
   */
  lemma WriteThenRead(m: map<nat, seq<Slot>>, addr: nat, e: Expr, val: Value, next: nat, next': nat)
    requires ValidMem(m) && addr < TWO_64 && SlotOk(Some(e)) && IsTypeTag(val.ty) && kSizeOfType[val.ty] == e.size
    ensures var r := MemRead(MemWrite(m, addr, e, next).0, addr, val, next').expr;
      r.Some? && Strip(r.value) == Strip(e)
  {
    var m' := MemWrite(m, addr, e, next).0;
    var b := m'[Base(addr)];
    var i := Offset(addr);
    var n := F.TypeSize(val);
    var w := b + NextBlock(m', addr);
    assert w[i] == Some(e);
    assert Step(w, i, n, val, 0, None, next') == Some(Clone(e, next'));
    CloneStrip(e, next');
  }

  // -------------------------------------------------------------- Serialize

  function Present(s: Slot): (p: nat)
    ensures p < 2 && (p == 1 <==> s.Some?)
  {
    if s.Some? then 1 else 0
  }

  /** `c = (c << 1) | (slots_[i] != NULL)` over the first `k` slots: slot 0 ends up in the highest bit. */
  function Bitmap(b: seq<Slot>, k: nat): (c: nat)
    requires k <= |b|
    ensures c < Pow2(k)
  {
    if k == 0 then 0 else 2 * Bitmap(b, k - 1) + Present(b[k - 1])
  }

  /** Bit `s + 1` of `2v + p` is bit `s` of `v`. */
  lemma BitFieldShift(v: nat, p: nat, s: nat)
    requires p < 2
    ensures BitField(2 * v + p, s + 1, 1) == BitField(v, s, 1)
  {
    DivDiv(2 * v + p, 2, Pow2(s));
    assert Pow2(s + 1) == 2 * Pow2(s);
  }

  /** Slot `k` of the first `m` sits at bit `m - 1 - k`. */
  lemma {:induction false} BitmapBitAt(b: seq<Slot>, m: nat, k: nat)
    requires k < m <= |b|
    ensures BitField(Bitmap(b, m), m - 1 - k, 1) == Present(b[k])
  {
    if m == k + 1 {
      assert Pow2(0) == 1 && Pow2(1) == 2;
    } else {
      BitmapBitAt(b, m - 1, k);
      BitFieldShift(Bitmap(b, m - 1), Present(b[m - 1]), m - 2 - k);
    }
  }

  /** In a block's 32-bit bitmap, bit `31 - k` is set iff slot `k` holds an expression. */
  lemma BitmapBit(b: seq<Slot>, k: nat)
    requires |b| == CAPACITY && k < CAPACITY
    ensures BitField(Bitmap(b, CAPACITY), 31 - k, 1) == Present(b[k])
  {
    BitmapBitAt(b, CAPACITY, k);
  }

  /** The expressions of slots `k` on, in slot order. */
  function SlotBytes(b: seq<Slot>, k: nat): (bs: seq<Byte>)
    requires k <= |b|
    decreases |b| - k
  {
    if k == |b| then []
    else (if b[k].Some? then ExprCodec.Serialize(b[k].value) else []) + SlotBytes(b, k + 1)
  }

  /** `MemElem::Serialize`: the 32-bit bitmap, then the present slots in order. */
  function BlockBytes(b: seq<Slot>): (bs: seq<Byte>)
    requires IsBlock(b)
    ensures |bs| >= 4
  {
    Pow2Values();
    assert Bitmap(b, CAPACITY) < Pow2(32);
    U32Bytes(Bitmap(b, CAPACITY)) + SlotBytes(b, 0)
  }

  /** The bitmap fits its 32-bit word, which comes first, before the slots. */
  lemma BlockBytesParts(b: seq<Slot>)
    requires IsBlock(b)
    ensures Bitmap(b, CAPACITY) < 0x1_0000_0000
    ensures BlockBytes(b) == U32Bytes(Bitmap(b, CAPACITY)) + SlotBytes(b, 0)
  {
    Pow2Values();
  }

  /** The (address, block) records for the blocks at `order`, in that order. */
  function BlocksBytes(m: map<nat, seq<Slot>>, order: seq<nat>): (bs: seq<Byte>)
    requires ValidMem(m) && forall k | 0 <= k < |order| :: order[k] in m
  {
    if order == [] then []
    else U64Bytes(order[0]) + BlockBytes(m[order[0]]) + BlocksBytes(m, order[1..])
  }

  /**
   * `SymbolicMemoryWriter::Serialize`: the block count, then every block as
   * its address and `MemElem::Serialize`, in the hash map's iteration
   * order `order`, which lists every block once.
   */
  function MemBytes(m: map<nat, seq<Slot>>, order: seq<nat>): (bs: seq<Byte>)
    requires ValidMem(m) && |order| < TWO_64
    requires forall k | 0 <= k < |order| :: order[k] in m
    ensures |bs| >= 8 && bs[..8] == U64Bytes(|order|)
  {
    U64Bytes(|order|) + BlocksBytes(m, order[..])
  }

  // --------------------------------------------------- MemElem, step by step

  /** The covering search of `MemElem::read` and `MemElem::write`. */
  method FindCover(b: seq<Slot>, i: nat) returns (j: nat)
    requires |b| == CAPACITY && i < CAPACITY
    ensures j == CoverFrom(b, i)
  {
    j := i;
    while j != 0 && b[j].None?
      invariant j <= i && CoverFrom(b, j) == CoverFrom(b, i)
      decreases j
    {
      j := ClearLowestBit(j);
    }
  }

  /** The inner `while ((++j < n) && slot(i + j) == NULL)`, from byte `j`. */
  method SkipEmpty(w: seq<Slot>, i: nat, j: nat, n: nat) returns (k: nat)
    requires |w| == 2 * CAPACITY && i + n <= |w| && j < n
    ensures k == RunEnd(w, i, j + 1, n)
  {
    k := j + 1;
    while k < n && w[i + k].None?
      invariant j < k <= n && RunEnd(w, i, k, n) == RunEnd(w, i, j + 1, n)
      decreases n - k
    {
      k := k + 1;
    }
  }

  /** One round of the forward scan's do-while. */
  method ScanStep(w: seq<Slot>, i: nat, n: nat, val: Value, j: nat, ret: Option<Expr>, counter: IdCounter)
    returns (r: Option<Expr>)
    requires ScanState(w, i, n, j, ret)
    modifies counter
    ensures var st := Step(w, i, n, val, j, ret, old(counter.next));
      if r.None? then st.None? && counter.next == old(counter.next) else st == Some(Numbered(r.value, counter.next))
  {
    if w[i + j].Some? {
      var c := counter.CloneOf(w[i + j].value);
      if ret.None? {
        r := Some(c);
      } else {
        var x := F.Concatenate(ret.value, c, counter.next);
        r, counter.next := Some(x.expr), x.next;
      }
    } else {
      var k := SkipEmpty(w, i, j, n);
      if ret.None? {
        if k == n {
          return None;
        }
        var x := F.ExtractBytesOfValue(val, 0, k, counter.next);
        r, counter.next := Some(x.expr), x.next;
      } else {
        var t := F.ExtractBytesOfValue(val, ret.value.size, k - ret.value.size, counter.next);
        var x := F.Concatenate(ret.value, t.expr, t.next);
        r, counter.next := Some(x.expr), x.next;
      }
    }
  }

  /** The forward scan's `do … while (j < n)` over the window `w`. */
  method ScanWindow(w: seq<Slot>, i: nat, n: nat, val: Value, counter: IdCounter) returns (r: Option<Expr>)
    requires ScanState(w, i, n, 0, None)
    modifies counter
    ensures Got(r, counter.next) == Scan(w, i, n, val, 0, None, old(counter.next))
  {
    var ret: Option<Expr> := None;
    var j := 0;
    while true
      invariant ScanState(w, i, n, j, ret)
      invariant Scan(w, i, n, val, j, ret, counter.next) == Scan(w, i, n, val, 0, None, old(counter.next))
      decreases n - j
    {
      ret := ScanStep(w, i, n, val, j, ret, counter);
      if ret.None? {
        return None;
      }
      j := ret.value.size;
      if j >= n {
        return ret;
      }
    }
  }

  /** `MemElem::read`, with the forward scan reading the window `b + nb`. */
  method ReadElem(b: seq<Slot>, nb: seq<Slot>, i: nat, n: nat, val: Value, counter: IdCounter) returns (r: Option<Expr>)
    requires IsBlock(b) && IsBlock(nb) && i < CAPACITY && 1 <= n <= CAPACITY
    modifies counter
    ensures Got(r, counter.next) == ReadBlock(b, nb, i, n, val, old(counter.next))
  {
    var j := FindCover(b, i);
    if b[j].Some? && b[j].value.size > n && j + b[j].value.size > i {
      var c := counter.CloneOf(b[j].value);
      var x := F.ExtractBytes(c, i - j, n, counter.next);
      counter.next := x.next;
      return Some(x.expr);
    }
    r := ScanWindow(b + nb, i, n, val, counter);
  }

  /**
   * The split loop of `MemElem::write` from byte `from` of the covering
   * expression `tmp` at `j`, with the id counter at `next`.
   */
  method SplitLoop(b: seq<Slot>, j: nat, tmp: Expr, n: nat, from: nat, next: nat) returns (r: seq<Slot>, next': nat)
    requires |b| == CAPACITY && 1 <= n < tmp.size < MAX_SLOT_SIZE
    ensures (r, next') == SplitFrom(b, j, tmp, n, from, next)
  {
    r, next' := b, next;
    var k := from;
    while k < tmp.size && j + k < CAPACITY
      invariant |r| == CAPACITY && SplitFrom(r, j, tmp, n, k, next') == SplitFrom(b, j, tmp, n, from, next)
      decreases tmp.size - k
    {
      var p := Piece(tmp, k, n, next');
      r, next' := r[j + k := Some(p.expr)], p.next;
      k := k + n;
    }
  }

  /** The clearing loop of `MemElem::write`: `slots_[i + t] = NULL` for `t < n` inside the block. */
  method ClearLoop(b: seq<Slot>, i: nat, n: nat) returns (r: seq<Slot>)
    requires IsBlock(b)
    ensures r == Cleared(b, i, n)
  {
    r := b;
    var t := 0;
    while t < n && i + t < CAPACITY
      invariant IsBlock(r) && t <= n
      invariant forall x | 0 <= x < CAPACITY :: r[x] == if i <= x < i + t then None else b[x]
      decreases n - t
    {
      r := r[i + t := None];
      t := t + 1;
    }
  }

  /**
   * `MemElem::write`: the split of a larger covering expression (kept inside
   * the block), the clearing of the written slots, and the store of `e`.
   */
  method WriteElem(b: seq<Slot>, i: nat, n: nat, e: Slot, counter: IdCounter) returns (r: seq<Slot>)
    requires IsBlock(b) && i < CAPACITY && 1 <= n && SlotOk(e)
    modifies counter
    ensures (r, counter.next) == WriteBlock(b, i, n, e, old(counter.next))
  {
    r := b;
    var j := FindCover(b, i);
    if r[j].Some? && r[j].value.size > n && j + r[j].value.size > i {
      var tmp := r[j].value;
      var x := F.ExtractBytes(tmp, 0, n, counter.next);
      r, counter.next := SplitLoop(r[j := Some(x.expr)], j, tmp, n, n, x.next);
    }
    assert (r, counter.next) == SplitCover(b, i, n, old(counter.next));
    r := ClearLoop(r, i, n);
    r := r[i := e];
  }

  /** The bitmap loop of `MemElem::Serialize`, on a 32-bit unsigned `c`. */
  method BlockBitmap(b: seq<Slot>) returns (c: UInt32)
    requires |b| == CAPACITY
    ensures c == Bitmap(b, CAPACITY)
  {
    c := 0;
    for k := 0 to CAPACITY
      invariant c == Bitmap(b, k)
    {
      BitmapStep(b, k);
      c := (2 * c) % 0x1_0000_0000 + Present(b[k]);
    }
  }

  /** Shifting the first `k < 32` bits left inside 32 bits loses none of them. */
  lemma BitmapStep(b: seq<Slot>, k: nat)
    requires k < |b| == CAPACITY
    ensures (2 * Bitmap(b, k)) % 0x1_0000_0000 + Present(b[k]) == Bitmap(b, k + 1)
  {
    Pow2Values();
    Pow2Monotone(k, 31);
    var v := Bitmap(b, k);
    assert 2 * Pow2(31) == Pow2(32);
    assert 0 <= 2 * v < 0x1_0000_0000;
  }

  lemma Assoc(a: seq<Byte>, b: seq<Byte>, c: seq<Byte>)
    ensures a + (b + c) == (a + b) + c
  {
  }

  /** `MemElem::Serialize`: the bitmap, then the present slots in order. */
  method SerializeElem(b: seq<Slot>) returns (bs: seq<Byte>)
    requires IsBlock(b)
    ensures bs == BlockBytes(b)
  {
    var c := BlockBitmap(b);
    bs := U32Bytes(c);
    ghost var goal := BlockBytes(b);
    assert goal == bs + SlotBytes(b, 0);
    for k := 0 to CAPACITY
      invariant bs + SlotBytes(b, k) == goal
    {
      var piece := if b[k].Some? then ExprCodec.Serialize(b[k].value) else [];
      assert SlotBytes(b, k) == piece + SlotBytes(b, k + 1);
      Assoc(bs, piece, SlotBytes(b, k + 1));
      bs := bs + piece;
    }
  }

  /** `while (sz > limit) sz >>= 1;` */
  method ShrinkLoop(sz: nat, limit: nat) returns (r: nat)
    ensures r == Shrink(sz, limit)
  {
    r := sz;
    while r > limit
      invariant Shrink(r, limit) == Shrink(sz, limit)
      decreases r
    {
      r := r / 2;
    }
  }

  /** The state `concretize` carries from round to round. */
  datatype ConcretizeState = ConcretizeState(mem: map<nat, seq<Slot>>, addr: nat, left: int, next: nat)

  /** Every byte of `[from, upto)` that lies in a present block is concrete. */
  predicate ClearedRange(m: map<nat, seq<Slot>>, from: nat, upto: nat)
    requires ValidMem(m)
  {
    forall x | from <= x < upto && Base(x) in m :: m[Base(x)][Offset(x)].None?
  }

  /**
   * No expression starts below `addr` in its block and reaches `addr`: the
   * covering searches of the chunks can then only find expressions that
   * start inside the range.
   */
  predicate NoStraddle(m: map<nat, seq<Slot>>, addr: nat)
    requires ValidMem(m)
  {
    Base(addr) in m ==>
      forall y | 0 <= y < Offset(addr) :: m[Base(addr)][y].Some? ==> y + m[Base(addr)][y].value.size <= Offset(addr)
  }

  /**
   * One round of `concretize`'s do-while: the round `NextRound` describes,
   * with its chunk, if any, cleared by a block write of the chunk's size
   * and no expression.
   */
  function RoundSpec(st: ConcretizeState): (r: ConcretizeState)
    requires ValidMem(st.mem) && st.left > 0
    ensures ValidMem(r.mem) && r.mem.Keys == st.mem.Keys && r.left < st.left && r.next >= st.next
    ensures r.addr + r.left == st.addr + st.left && st.addr < r.addr
    ensures ClearedRange(r.mem, st.addr, r.addr)
  {
    var a := st.addr;
    var round := NextRound(st.mem.Keys, a, Shrink(Align(a), st.left), st.left);
    if round.chunk.None? then
      AbsentBlockCleared(st.mem, a);
      ConcretizeState(st.mem, round.addr, round.left, st.next)
    else
      var c := round.chunk.value;
      var w := WriteBlock(st.mem[Base(a)], Offset(a), c.size, None, st.next);
      ChunkCleared(st.mem, a, c.size, w.0);
      ConcretizeState(st.mem[Base(a) := w.0], round.addr, round.left, w.1)
  }

  /** The bytes from `a` to the end of its absent block are in no present block. */
  lemma AbsentBlockCleared(m: map<nat, seq<Slot>>, a: nat)
    requires ValidMem(m) && Base(a) !in m
    ensures ClearedRange(m, a, Base(a) + CAPACITY)
  {
    forall x | a <= x < Base(a) + CAPACITY ensures Base(x) !in m {
      SameBlock(a, x);
    }
  }

  /** A block write of `sz` empty bytes at `a` leaves `[a, a + sz)` concrete. */
  lemma ChunkCleared(m: map<nat, seq<Slot>>, a: nat, sz: nat, w: seq<Slot>)
    requires ValidMem(m) && Base(a) in m && 1 <= sz && Offset(a) + sz <= CAPACITY && IsBlock(w)
    requires w[Offset(a)].None? && forall x | Offset(a) < x < Offset(a) + sz && x < CAPACITY :: w[x].None?
    ensures ValidMem(m[Base(a) := w]) && ClearedRange(m[Base(a) := w], a, a + sz)
  {
    var m': map<nat, seq<Slot>> := m[Base(a) := w];
    forall x | a <= x < a + sz && Base(x) in m' ensures m'[Base(x)][Offset(x)].None? {
      SameBlock(a, x);
    }
  }

  /** The rounds from `st` on, until no bytes are left. */
  function ConcretizeFrom(st: ConcretizeState): (r: (map<nat, seq<Slot>>, nat))
    requires ValidMem(st.mem)
    ensures ValidMem(r.0) && r.0.Keys == st.mem.Keys && r.1 >= st.next
    decreases st.left
  {
    if st.left <= 0 then (st.mem, st.next) else ConcretizeFrom(RoundSpec(st))
  }

  /**
   * `SymbolicMemoryWriter::concretize(addr, n)`: the chunks
   * `Chunks(m.Keys, addr, n)` are cleared in order (`RoundsFollowChunks`);
   * absent blocks stay absent; and, when no expression reaches `addr` from
   * below, every byte of `[addr, addr + n)` in a present block ends up
   * concrete.
   */
  function ConcretizeSpec(m: map<nat, seq<Slot>>, addr: nat, n: nat, next: nat): (r: (map<nat, seq<Slot>>, nat))
    requires ValidMem(m)
    ensures ValidMem(r.0) && r.0.Keys == m.Keys && r.1 >= next
    ensures NoStraddle(m, addr) ==> ClearedRange(r.0, addr, addr + n)
  {
    var st := ConcretizeState(m, addr, n, next);
    if NoStraddle(m, addr) then
      ConcretizeFromClears(st, addr, n);
      ConcretizeFrom(st)
    else ConcretizeFrom(st)
  }

  /** The chunks the rounds from `st` clear, one per round in a present block. */
  function RoundChunks(st: ConcretizeState): (cs: seq<Chunk>)
    requires ValidMem(st.mem)
    decreases st.left
  {
    if st.left <= 0 then []
    else ChunkOf(NextRound(st.mem.Keys, st.addr, Shrink(Align(st.addr), st.left), st.left)) + RoundChunks(RoundSpec(st))
  }

  /** The rounds of `concretize` clear exactly the chunks `Chunks` lists, in order. */
  lemma {:induction false} RoundsFollowChunks(st: ConcretizeState)
    requires ValidMem(st.mem)
    ensures RoundChunks(st) == Chunks(st.mem.Keys, st.addr, st.left)
    decreases st.left
  {
    if st.left > 0 {
      var round := NextRound(st.mem.Keys, st.addr, Shrink(Align(st.addr), st.left), st.left);
      var st' := RoundSpec(st);
      assert st'.addr == round.addr && st'.left == round.left;
      RoundsFollowChunks(st');
    }
  }

  /**
   * What holds between rounds of `concretize(addr0, n)`: the bytes from
   * `addr0` up to the current address are concrete, the byte count still
   * ends the range at `addr0 + n`, and nothing reaches `addr0` from below.
   */
  predicate Concretizing(st: ConcretizeState, addr0: nat, n: nat)
    requires ValidMem(st.mem)
  {
    addr0 <= st.addr && st.addr + st.left == addr0 + n &&
    NoStraddle(st.mem, addr0) && ClearedRange(st.mem, addr0, st.addr)
  }

  /**
   * A write at offset `i` of a block whose slots in `[lo, i)` are empty and
   * whose slots below `lo` do not reach `lo` finds no covering expression
   * below `i`, so it leaves every slot below `i` as it was.
   */
  lemma WriteKeepsBelow(b: seq<Slot>, lo: nat, i: nat, sz: nat, next: nat, x: nat)
    requires IsBlock(b) && lo <= i < CAPACITY && 1 <= sz && x < i
    requires forall y | lo <= y < i :: b[y].None?
    requires forall y | 0 <= y < lo :: b[y].Some? ==> y + b[y].value.size <= lo
    ensures WriteBlock(b, i, sz, None, next).0[x] == b[x]
  {
    WriteBlockAt(b, i, sz, None, next, x);
    var j := CoverFrom(b, i);
    if CoversAt(b, j, i, sz) {
      assert j == i;
    }
  }

  /** The slots of `a`'s block below `a` that lie in `[addr0, a)`, and those below `addr0`. */
  lemma BlockBelow(m: map<nat, seq<Slot>>, addr0: nat, a: nat) returns (lo: nat)
    requires ValidMem(m) && addr0 <= a && Base(a) in m
    requires NoStraddle(m, addr0) && ClearedRange(m, addr0, a)
    ensures lo <= Offset(a)
    ensures forall y | lo <= y < Offset(a) :: m[Base(a)][y].None?
    ensures forall y | 0 <= y < lo :: m[Base(a)][y].Some? ==> y + m[Base(a)][y].value.size <= lo
    ensures Base(a) == Base(addr0) ==> lo == Offset(addr0)
  {
    if Base(a) == Base(addr0) {
      lo := Offset(addr0);
    } else {
      lo := 0;
      if Base(a) < addr0 {
        SameBlock(a, addr0);
      }
    }
    forall y | lo <= y < Offset(a) ensures m[Base(a)][y].None? {
      SameBlock(a, Base(a) + y);
      assert Offset(Base(a) + y) == y;
    }
  }

  /** A round keeps `Concretizing`. */
  lemma RoundClears(st: ConcretizeState, addr0: nat, n: nat)
    requires ValidMem(st.mem) && st.left > 0 && Concretizing(st, addr0, n)
    ensures Concretizing(RoundSpec(st), addr0, n)
  {
    var a := st.addr;
    var st' := RoundSpec(st);
    if Base(a) in st.mem {
      var b := st.mem[Base(a)];
      var i := Offset(a);
      var sz := Shrink(Align(a), st.left);
      var w := WriteBlock(b, i, sz, None, st.next).0;
      assert st'.mem == st.mem[Base(a) := w];
      var lo := BlockBelow(st.mem, addr0, a);
      forall y | 0 <= y < i ensures w[y] == b[y] {
        WriteKeepsBelow(b, lo, i, sz, st.next, y);
      }
      forall x | addr0 <= x < st'.addr && Base(x) in st'.mem ensures st'.mem[Base(x)][Offset(x)].None? {
        if x < a && Base(x) == Base(a) {
          assert Offset(x) < i;
        }
      }
    }
  }

  /** The rounds from a `Concretizing` state clear the whole range. */
  lemma {:induction false} ConcretizeFromClears(st: ConcretizeState, addr0: nat, n: nat)
    requires ValidMem(st.mem) && Concretizing(st, addr0, n)
    ensures ClearedRange(ConcretizeFrom(st).0, addr0, addr0 + n)
    decreases st.left
  {
    if st.left > 0 {
      RoundClears(st, addr0, n);
      ConcretizeFromClears(RoundSpec(st), addr0, n);
    }
  }

  /** One round of `concretize`'s do-while. */
  method ConcretizeRound(m: map<nat, seq<Slot>>, a: nat, left: int, counter: IdCounter)
    returns (m': map<nat, seq<Slot>>, a': nat, left': int)
    requires ValidMem(m) && left > 0
    modifies counter
    ensures ConcretizeState(m', a', left', counter.next) == RoundSpec(ConcretizeState(m, a, left, old(counter.next)))
  {
    if Base(a) !in m {
      return m, Base(a) + CAPACITY, left - (CAPACITY - Offset(a));
    }
    var sz := ShrinkLoop(Align(a), left);
    var b := WriteElem(m[Base(a)], Offset(a), sz, None, counter);
    m', a', left' := m[Base(a) := b], a + sz, left - sz;
  }

  // ------------------------------------------------------ the memory itself

  /**
   * `SymbolicMemoryWriter`: the symbolic bytes of the recorded run, as a
   * map from block base addresses to blocks. Every expression a read or
   * write builds takes its ids from `counter`.
   */
  class SymbolicMemoryWriter {
    var mem: map<nat, seq<Slot>>

    ghost predicate Valid()
      reads this
    {
      ValidMem(mem)
    }

    constructor ()
      ensures Valid() && mem == map[]
    {
      mem := map[];
    }

    /** `read(addr, val)`. */
    method Read(addr: nat, val: Value, counter: IdCounter) returns (r: Option<Expr>)
      requires Valid() && IsTypeTag(val.ty)
      modifies counter
      ensures Got(r, counter.next) == MemRead(mem, addr, val, old(counter.next))
    {
      if val.ty == STRUCT {
        return None;
      }
      if Base(addr) !in mem {
        return None;
      }
      var nb := EmptyBlock();
      if Base(addr) + CAPACITY in mem {
        nb := mem[Base(addr) + CAPACITY];
      }
      var n := F.TypeSize(val);
      r := ReadElem(mem[Base(addr)], nb, Offset(addr), n, val, counter);
    }

    /** `write(addr, e)`. */
    method Write(addr: nat, e: Expr, counter: IdCounter)
      requires Valid() && addr < TWO_64 && SlotOk(Some(e))
      modifies this, counter
      ensures Valid() && (mem, counter.next) == MemWrite(old(mem), addr, e, old(counter.next))
    {
      ghost var m0 := mem;
      if Base(addr) !in mem {
        mem := mem[Base(addr) := EmptyBlock()];
      }
      var b := WriteElem(mem[Base(addr)], Offset(addr), e.size, Some(e), counter);
      mem := mem[Base(addr) := b];
      assert mem == m0[Base(addr) := b];
    }

    /**
     * `concretize(addr, n)`; `n` fits the `int` the byte count is kept in,
     * and the chunk size is shrunk against the bytes left.
     */
    method Concretize(addr: nat, n: nat, counter: IdCounter)
      requires Valid() && 1 <= n < 0x8000_0000
      modifies this, counter
      ensures Valid() && (mem, counter.next) == ConcretizeSpec(old(mem), addr, n, old(counter.next))
    {
      var m := mem;
      var left: int := n;
      var a: nat := addr;
      while left > 0
        invariant ValidMem(m)
        invariant ConcretizeFrom(ConcretizeState(m, a, left, counter.next)) == ConcretizeSpec(old(mem), addr, n, old(counter.next))
        decreases left
      {
        m, a, left := ConcretizeRound(m, a, left, counter);
      }
      mem := m;
    }

    /** `Serialize`, with the blocks in the hash map's iteration order `order`. */
    method Serialize(order: seq<nat>) returns (bs: seq<Byte>)
      requires Valid() && |order| < TWO_64
      requires forall k | 0 <= k < |order| :: order[k] in mem
      ensures bs == MemBytes(mem, order)
    {
      bs := U64Bytes(|order|);
      for k := 0 to |order|
        invariant bs + BlocksBytes(mem, order[k..]) == MemBytes(mem, order)
      {
        assert order[k..][1..] == order[k + 1..];
        var block := SerializeElem(mem[order[k]]);
        bs := bs + U64Bytes(order[k]) + block;
      }
    }
  }
}
