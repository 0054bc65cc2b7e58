/**
 * Bit-fields as symbolic inputs. The instrumented program hands the
 * recorder a bit range [lowestBit, highestBit) of an object; the recorder
 * turns every byte the range touches into one input, remembering which bits
 * `l .. h-1` of that byte belong to the field, and the replay driver glues
 * the pieces back together. Values are 64-bit patterns.
 */
module BitFields {
  import opened Arith
  import opened BasicTypes

  /** The bytes a bit-field spans and the bit range inside its first and last byte. */
  datatype Layout = Layout(lowestIndex: nat, highestIndex: nat, indexSize: int, h: nat, l: nat)

  /**
   * The index arithmetic of `__CrownBitField`: the first byte holds bit
   * `lowestBit`, the last byte holds bit `highestBit - 1`, `l` is the offset
   * of the field in its first byte and `h` the end of the field in its last
   * byte. The indices are `unsigned char`s, so the range must end within the
   * first 256 bytes.
   */
  function LayoutOf(lowestBit: nat, highestBit: nat): (r: Layout)
    requires lowestBit < highestBit <= 2048
    ensures lowestBit == 8 * r.lowestIndex + r.l && r.l < 8
    ensures highestBit == 8 * r.highestIndex + r.h && 1 <= r.h <= 8
    ensures r.lowestIndex <= r.highestIndex < 256
    ensures r.indexSize == r.highestIndex - r.lowestIndex + 1 >= 1
  {
    var lowestIndex := lowestBit / 8;
    var highestIndex := if highestBit % 8 == 0 then highestBit / 8 - 1 else highestBit / 8;
    Layout(lowestIndex, highestIndex, highestIndex - lowestIndex + 1,
           (highestBit - 1) % 8 + 1, lowestBit % 8)
  }

  /**
   * One input a struct bit-field becomes: its type tag and the `h`, `l` and
   * index count `NewInput` records for it. A `BITFIELD_CHAR` piece owns bits
   * `l .. h-1` of its byte; a plain `U_CHAR` piece is declared with the
   * defaults `h == l == 0` and owns the whole byte.
   */
  datatype Piece = Piece(ty: TypeTag, h: nat, l: nat, indexSize: nat)

  /** The bits of the field one piece carries. */
  function FieldWidth(p: Piece): int {
    if p.ty == U_CHAR then 8 else p.h - p.l
  }

  function TotalWidth(ps: seq<Piece>): int {
    if ps == [] then 0 else TotalWidth(ps[..|ps| - 1]) + FieldWidth(ps[|ps| - 1])
  }

  /** A middle byte: a `U_CHAR` input with the default bit range and index count. */
  const MIDDLE := Piece(U_CHAR, 0, 0, 0)

  /**
   * The inputs a struct bit-field becomes: a single `BITFIELD_CHAR` byte with
   * (h, l), or a first byte (8, l), plain `U_CHAR` middle bytes and a last
   * byte (h, 0). The index count is passed as an `unsigned char`.
   */
  function Pieces(lay: Layout): (ps: seq<Piece>)
    requires lay.indexSize >= 1
    ensures |ps| == lay.indexSize
    ensures forall k | 0 < k < |ps| - 1 :: ps[k] == MIDDLE
  {
    var n := lay.indexSize % 256;
    if lay.indexSize == 1 then [Piece(BITFIELD_CHAR, lay.h, lay.l, n)]
    else [Piece(BITFIELD_CHAR, 8, lay.l, n)] + seq(lay.indexSize - 2, _ => MIDDLE) + [Piece(BITFIELD_CHAR, lay.h, 0, n)]
  }

  lemma {:induction false} TotalWidthFull(n: nat)
    ensures TotalWidth(seq(n, _ => MIDDLE)) == 8 * n
  {
    if n > 0 {
      var ps := seq(n, _ => MIDDLE);
      assert ps[..n - 1] == seq(n - 1, _ => MIDDLE);
      TotalWidthFull(n - 1);
    }
  }

  lemma {:induction false} TotalWidthAppend(a: seq<Piece>, b: seq<Piece>)
    ensures TotalWidth(a + b) == TotalWidth(a) + TotalWidth(b)
  {
    if b != [] {
      assert (a + b)[..|a + b| - 1] == a + b[..|b| - 1];
      TotalWidthAppend(a, b[..|b| - 1]);
    } else {
      assert a + b == a;
    }
  }

  lemma TotalWidthOne(p: Piece)
    ensures TotalWidth([p]) == FieldWidth(p)
  {
    assert [p][..0] == [];
  }

  /**
   * The pieces of a field cover exactly its bits: every bit-field piece has
   * a non-empty range within its byte, every other piece is a plain byte
   * with the default (0, 0), and the bits they carry add up to the field's.
   */
  lemma LayoutCoversField(lowestBit: nat, highestBit: nat)
    requires lowestBit < highestBit <= 2048
    ensures forall p | p in Pieces(LayoutOf(lowestBit, highestBit)) ::
      (p.ty == BITFIELD_CHAR && p.l < p.h <= 8) || p == MIDDLE
    ensures TotalWidth(Pieces(LayoutOf(lowestBit, highestBit))) == highestBit - lowestBit
  {
    var lay := LayoutOf(lowestBit, highestBit);
    var n := lay.indexSize % 256;
    if lay.indexSize == 1 {
      TotalWidthOne(Piece(BITFIELD_CHAR, lay.h, lay.l, n));
    } else {
      var first, last := Piece(BITFIELD_CHAR, 8, lay.l, n), Piece(BITFIELD_CHAR, lay.h, 0, n);
      var mid := seq(lay.indexSize - 2, _ => MIDDLE);
      assert Pieces(lay) == [first] + mid + [last];
      TotalWidthFull(lay.indexSize - 2);
      TotalWidthAppend([first], mid);
      TotalWidthAppend([first] + mid, [last]);
      TotalWidthOne(first);
      TotalWidthOne(last);
    }
  }

  // -------------------------------------- gluing pieces back together

  /** A piece of a field as read back: bits `l .. h-1` of `value` belong to the field. */
  datatype Chunk = Chunk(value: nat, h: nat, l: nat)

  predicate ValidChunks(cs: seq<Chunk>) {
    forall k :: 0 <= k < |cs| ==> cs[k].l <= cs[k].h <= 8
  }

  function ChunkWidth(c: Chunk): nat
    requires c.l <= c.h
  {
    c.h - c.l
  }

  /** The field bits of a chunk, at bit 0. */
  function ChunkBits(c: Chunk): nat
    requires c.l <= c.h
  {
    BitField(c.value, c.l, ChunkWidth(c))
  }

  /** The number of bits the chunks cover together. */
  function Span(cs: seq<Chunk>): nat
    requires ValidChunks(cs)
  {
    if cs == [] then 0 else Span(cs[..|cs| - 1]) + ChunkWidth(cs[|cs| - 1])
  }

  /** The chunks' field bits side by side, the first chunk lowest. */
  function Pack(cs: seq<Chunk>): nat
    requires ValidChunks(cs)
  {
    if cs == [] then 0
    else
      var bits, prefix := ChunkBits(cs[|cs| - 1]), cs[..|cs| - 1];
      MulAtLeast(bits, 0, Pow2(Span(prefix)));
      bits * Pow2(Span(prefix)) + Pack(prefix)
  }

  /** Appending a chunk places its bits just above the others. */
  lemma {:induction false} PackAppend(cs: seq<Chunk>, c: Chunk)
    requires ValidChunks(cs) && c.l <= c.h <= 8
    ensures ValidChunks(cs + [c])
    ensures Span(cs + [c]) == Span(cs) + ChunkWidth(c)
    ensures Pack(cs + [c]) == ChunkBits(c) * Pow2(Span(cs)) + Pack(cs)
  {
    assert (cs + [c])[..|cs|] == cs;
  }

  lemma {:induction false} SpanMonotone(cs: seq<Chunk>, a: nat)
    requires ValidChunks(cs) && a <= |cs|
    ensures Span(cs[..a]) <= Span(cs)
  {
    if a < |cs| {
      var prefix := cs[..|cs| - 1];
      assert prefix[..a] == cs[..a];
      SpanMonotone(prefix, a);
      assert Span(cs) == Span(prefix) + ChunkWidth(cs[|cs| - 1]);
    } else {
      assert cs[..a] == cs;
    }
  }

  /** Nothing of the packed value lies at or above the end of the last chunk. */
  lemma {:induction false} PackTop(cs: seq<Chunk>)
    requires ValidChunks(cs)
    ensures Pack(cs) < Pow2(Span(cs))
  {
    if cs != [] {
      var prefix := cs[..|cs| - 1];
      PackTop(prefix);
      PlacedField(ChunkBits(cs[|cs| - 1]), Pack(prefix), Span(prefix), ChunkWidth(cs[|cs| - 1]));
    }
  }

  /** A field of at most 64 bits packs into an `unsigned long long`. */
  lemma {:induction false} PackWithin64(cs: seq<Chunk>)
    requires ValidChunks(cs) && Span(cs) <= 64
    ensures Pack(cs) < 0x1_0000_0000_0000_0000
  {
    PackTop(cs);
    Pow2Monotone(Span(cs), 64);
    Pow2Values();
  }

  /** The last chunk's bits read back at the end of the others. */
  lemma {:induction false} PackReadbackLast(cs: seq<Chunk>)
    requires ValidChunks(cs) && cs != []
    ensures BitField(Pack(cs), Span(cs[..|cs| - 1]), ChunkWidth(cs[|cs| - 1])) == ChunkBits(cs[|cs| - 1])
  {
    var prefix, last := cs[..|cs| - 1], cs[|cs| - 1];
    PackTop(prefix);
    assert Pack(cs) == ChunkBits(last) * Pow2(Span(prefix)) + Pack(prefix);
    PlacedField(ChunkBits(last), Pack(prefix), Span(prefix), ChunkWidth(last));
  }

  /** Adding the last chunk leaves the bits of an earlier one as they were. */
  lemma {:induction false} PackReadbackEarlier(cs: seq<Chunk>, k: nat)
    requires ValidChunks(cs) && k < |cs| - 1
    ensures BitField(Pack(cs), Span(cs[..k]), ChunkWidth(cs[k])) ==
      BitField(Pack(cs[..|cs| - 1]), Span(cs[..k]), ChunkWidth(cs[k]))
  {
    var prefix := cs[..|cs| - 1];
    assert cs[..k + 1][..k] == cs[..k];
    assert prefix[..k + 1] == cs[..k + 1];
    SpanMonotone(prefix, k + 1);
    var off := Span(cs[..k]);
    FieldBelow(ChunkBits(cs[|cs| - 1]), Pack(prefix), off, Span(prefix) - off, ChunkWidth(cs[k]));
  }

  /** Every chunk's bits read back from the packed value at the chunk's offset. */
  lemma {:induction false} PackReadback(cs: seq<Chunk>, k: nat)
    requires ValidChunks(cs) && k < |cs|
    ensures BitField(Pack(cs), Span(cs[..k]), ChunkWidth(cs[k])) == ChunkBits(cs[k])
  {
    if k == |cs| - 1 {
      PackReadbackLast(cs);
    } else {
      var prefix := cs[..|cs| - 1];
      assert prefix[..k] == cs[..k] && prefix[k] == cs[k];
      PackReadback(prefix, k);
      PackReadbackEarlier(cs, k);
    }
  }

  // ------------------------------------- merging a new input into a byte

  /** The `w` low bits of a byte set. */
  function ByteMask(w: bv8): bv8
    requires w <= 8
  {
    ((1 as bv8) << w) - 1
  }

  /** Bits `off .. off+w-1` of a byte, moved down to bit 0. */
  function ByteField(x: bv8, off: bv8, w: bv8): bv8
    requires off <= 8 && w <= 8 && off + w <= 8
  {
    (x >> off) & ByteMask(w)
  }

  /**
   * How `NewInput` rebuilds a bit-field byte from a previous run's input
   * value and the byte's current contents: bit `l` from the input, bits
   * below `l` and from `h` up from the current value. Only one bit of the
   * field is taken from the input.
   */
  function MergeInputAsWritten(input: bv8, current: bv8, h: bv8, l: bv8): (r: bv8)
    requires l < h <= 8
    ensures r >> h == current >> h
  {
    (((input >> l) & 1) << l) | (((current >> h) << h) | (current & ((1 << l) - 1)))
  }

  lemma MergeInputAsWrittenKeepsLow(input: bv8, current: bv8, h: bv8, l: bv8)
    requires l < h <= 8
    ensures ByteField(MergeInputAsWritten(input, current, h, l), 0, l) == ByteField(current, 0, l)
  {
  }

  /** A field wider than one bit loses input bits: input 6 into bits 0..7 of a zero byte gives 0. */
  lemma MergeInputDropsBits()
    ensures ByteField(MergeInputAsWritten(6, 0, 8, 0), 0, 8) == 0
    ensures ByteField(6, 0, 8) == 6
  {
  }

  /** The merge with the field's whole width taken from the input. */
  function MergeInput(input: bv8, current: bv8, h: bv8, l: bv8): (r: bv8)
    requires l < h <= 8
    ensures ByteField(r, l, h - l) == ByteField(input, l, h - l)
  {
    (((input >> l) & ByteMask(h - l)) << l) | (((current >> h) << h) | (current & ((1 << l) - 1)))
  }

  /** Outside the field, the merged byte keeps the current contents. */
  lemma MergeInputKeepsRest(input: bv8, current: bv8, h: bv8, l: bv8)
    requires l < h <= 8
    ensures ByteField(MergeInput(input, current, h, l), 0, l) == ByteField(current, 0, l)
    ensures MergeInput(input, current, h, l) >> h == current >> h
  {
  }

  /** The `w` low bits of a 64-bit pattern set. */
  function WordMask(w: bv8): bv64
    requires w < 64
  {
    ((1 as bv64) << w) - 1
  }

  /**
   * Line 518 of `NewInput` on 64-bit patterns, as written, for every
   * bit-field tag: bit `l` of the previous input, the old value's bits from
   * `h` up and its bits below `l`. `h` and `l` are positions within a byte
   * even when the old value is a 16-, 32- or 64-bit union; when `l >= h` the
   * input's bit lands among the old value's kept high bits. The shifts are
   * defined for `h < 64` and, `1 << l` being an `int`, `l < 31`.
   */
  function MergeWordAsWritten(input: bv64, current: bv64, h: bv8, l: bv8): (r: bv64)
    requires h < 64 && l < 31
    ensures l < h ==> (r >> l) & 1 == (input >> l) & 1
  {
    (((input >> l) & 1) << l) | (((current >> h) << h) | (current & WordMask(l)))
  }

  /**
   * On a field inside one byte whose old value is a byte, the 64-bit line
   * computes in its low byte what `MergeInputAsWritten` computes on bytes,
   * and leaves the higher bytes 0.
   */
  lemma MergeWordAsWrittenOnByte(input: bv64, current: bv64, h: bv8, l: bv8)
    requires l < h <= 8 && current < 0x100
    ensures MergeWordAsWritten(input, current, h, l) < 0x100
    ensures MergeWordAsWritten(input, current, h, l) as bv8 == MergeInputAsWritten((input & 0xFF) as bv8, current as bv8, h, l)
  {
  }
}
