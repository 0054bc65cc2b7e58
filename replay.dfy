/**
 * The replay driver: it re-runs the program under test on one generated
 * input file. Each symbolic input reads a type line and a value line; the
 * value line must be a decimal number (a '0'/'1' string for floating point)
 * that fits the input's type, and the program exits otherwise. A line is
 * modelled as the characters `fgets` stored before the terminating NUL, so
 * it ends with its newline unless the file ended first.
 */
module Replay {
  import opened Wrappers
  import opened Arith
  import opened BasicTypes
  import BasicFunctions
  import BitFields

  // ------------------------------------------------------------ lines

  predicate IsDigit(c: char) {
    '0' <= c <= '9'
  }

  predicate AllDigits(s: string) {
    forall k :: 0 <= k < |s| ==> IsDigit(s[k])
  }

  /** The characters before the first newline: the part of a line the number checks look at. */
  function FirstLine(s: string): (r: string)
    ensures r <= s && '\n' !in r
    ensures |r| < |s| ==> s[|r|] == '\n'
  {
    if s == [] || s[0] == '\n' then [] else [s[0]] + FirstLine(s[1..])
  }

  /** The first line is the only prefix free of newlines that ends at a newline or at the end. */
  lemma FirstLineIs(s: string, n: nat)
    requires n <= |s| && '\n' !in s[..n]
    requires n < |s| ==> s[n] == '\n'
    ensures FirstLine(s) == s[..n]
  {
    var r := FirstLine(s);
    assert forall k :: 0 <= k < n ==> s[k] == s[..n][k];
    assert forall k :: 0 <= k < |r| ==> s[k] == r[k];
  }

  /** The longest prefix made of digits: what `strtoull` reads after `isnumber` has accepted the line. */
  function LeadingDigits(s: string): (r: string)
    ensures r <= s && AllDigits(r)
    ensures |r| < |s| ==> !IsDigit(s[|r|])
  {
    if s == [] || !IsDigit(s[0]) then [] else [s[0]] + LeadingDigits(s[1..])
  }

  lemma LeadingDigitsIs(s: string, n: nat)
    requires n <= |s| && AllDigits(s[..n])
    requires n < |s| ==> !IsDigit(s[n])
    ensures LeadingDigits(s) == s[..n]
  {
    var r := LeadingDigits(s);
    assert forall k :: 0 <= k < n ==> s[k] == s[..n][k];
    assert forall k :: 0 <= k < |r| ==> s[k] == r[k];
  }

  /** What `isnumber` accepts: a non-empty line whose first line is all digits (a bare newline passes, a sign does not). */
  predicate NumberLine(buf: string) {
    |buf| > 0 && AllDigits(FirstLine(buf))
  }

  /** `isnumber`: scan up to the first newline, rejecting any non-digit. */
  method IsNumber(buf: string) returns (b: bool)
    ensures b <==> NumberLine(buf)
  {
    if |buf| == 0 {
      return false;
    }
    var i := 0;
    while i < |buf|
      invariant 0 <= i <= |buf|
      invariant forall k :: 0 <= k < i ==> buf[k] != '\n' && IsDigit(buf[k])
    {
      if buf[i] == '\n' {
        break;
      } else if !IsDigit(buf[i]) {
        var r := FirstLine(buf);
        assert |r| > i;
        assert r[i] == buf[i];
        return false;
      }
      i := i + 1;
    }
    FirstLineIs(buf, i);
    return true;
  }

  /** What `isbinary` accepts: a non-empty line whose first line is all '0'/'1'. */
  predicate BinaryLine(buf: string) {
    |buf| > 0 && BasicFunctions.AllBinary(FirstLine(buf))
  }

  /** `isbinary`: the same scan with '0' and '1' as the only digits. */
  method IsBinary(buf: string) returns (b: bool)
    ensures b <==> BinaryLine(buf)
  {
    if |buf| == 0 {
      return false;
    }
    var i := 0;
    while i < |buf|
      invariant 0 <= i <= |buf|
      invariant forall k :: 0 <= k < i ==> buf[k] != '\n' && BasicFunctions.IsBinaryDigit(buf[k])
    {
      if buf[i] == '\n' {
        break;
      } else if buf[i] != '0' && buf[i] != '1' {
        var r := FirstLine(buf);
        assert |r| > i;
        assert r[i] == buf[i];
        return false;
      }
      i := i + 1;
    }
    FirstLineIs(buf, i);
    return true;
  }

  // ---------------------------------------------------- decimal numbers

  function DigitValue(c: char): nat
    requires IsDigit(c)
  {
    c as int - '0' as int
  }

  function DigitChar(d: nat): (c: char)
    requires d < 10
    ensures IsDigit(c) && DigitValue(c) == d
  {
    ('0' as int + d) as char
  }

  /** The number a string of decimal digits denotes. */
  function DecimalValue(s: string): nat
    requires AllDigits(s)
  {
    if s == [] then 0 else DecimalValue(s[..|s| - 1]) * 10 + DigitValue(s[|s| - 1])
  }

  /** `%llu`/`%lld` of a non-negative number: its shortest decimal form. */
  function Decimal(v: nat): (s: string)
    ensures |s| >= 1 && AllDigits(s)
  {
    if v < 10 then [DigitChar(v)] else Decimal(v / 10) + [DigitChar(v % 10)]
  }

  lemma {:induction false} DecimalRoundTrip(v: nat)
    ensures DecimalValue(Decimal(v)) == v
  {
    if v >= 10 {
      var s := Decimal(v / 10);
      assert (s + [DigitChar(v % 10)])[..|s|] == s;
      DecimalRoundTrip(v / 10);
    } else {
      assert [DigitChar(v)][..0] == [];
    }
  }

  /** `%lld` of a `long long`: a '-' before the magnitude of a negative value. */
  function FormatLLD(v: Int64): (s: string)
    ensures |s| >= 1
  {
    if v < 0 then "-" + Decimal(-(v as int)) else Decimal(v)
  }

  /** A value line as the search writes it: the number and a newline. */
  lemma DecimalLine(v: nat)
    ensures NumberLine(Decimal(v) + "\n")
    ensures FirstLine(Decimal(v) + "\n") == Decimal(v)
    ensures LeadingDigits(Decimal(v) + "\n") == Decimal(v)
  {
    var s := Decimal(v) + "\n";
    var n := |Decimal(v)|;
    assert s[..n] == Decimal(v);
    assert forall k :: 0 <= k < n ==> IsDigit(s[..n][k]);
    FirstLineIs(s, n);
    LeadingDigitsIs(s, n);
  }

  /** `strtoull` on a line `isnumber` accepted: the leading digits, saturated at ULLONG_MAX. */
  function StrToULL(buf: string): (r: UInt64)
    ensures DecimalValue(LeadingDigits(buf)) < TWO_64 ==> r == DecimalValue(LeadingDigits(buf))
  {
    var v := DecimalValue(LeadingDigits(buf));
    if v < TWO_64 then v else TWO_64 - 1
  }

  /** On a line `isnumber` accepted the leading digits are the whole first line. */
  lemma NumberLineDigits(buf: string)
    requires NumberLine(buf)
    ensures LeadingDigits(buf) == FirstLine(buf)
  {
    var n := |FirstLine(buf)|;
    assert buf[..n] == FirstLine(buf);
    LeadingDigitsIs(buf, n);
  }

  // ------------------------------------------------------ overflow checks

  /** 2^(8*size), the number of values of a `size`-byte type: `1ULL << 8*size` in the checks. */
  function ByteRange(size: nat): nat
    requires size <= 8
  {
    [1, 0x100, 0x1_0000, 0x100_0000, 0x1_0000_0000, 0x100_0000_0000, 0x1_0000_0000_0000,
     0x100_0000_0000_0000, 0x1_0000_0000_0000_0000][size]
  }

  /** 2^(8*size-1): the magnitude of the most negative `size`-byte signed value. */
  function HalfRange(size: nat): nat
    requires 1 <= size <= 8
  {
    ByteRange(size) / 2
  }

  /** The table holds the powers of two the shifts compute. */
  lemma {:induction false} ByteRangeIsPow2(size: nat)
    requires size <= 8
    ensures ByteRange(size) == Pow2(8 * size)
    ensures size >= 1 ==> HalfRange(size) == Pow2(8 * size - 1)
  {
    if size > 0 {
      ByteRangeIsPow2(size - 1);
      Pow2Add(8 * (size - 1), 8);
      assert Pow2(8) == 0x100;
      assert ByteRange(size) == 0x100 * ByteRange(size - 1);
      assert Pow2(8 * size) == 2 * Pow2(8 * size - 1);
    }
  }

  /** The largest value of a `size`-byte unsigned type as the checks compute it: all ones from 8 bytes on. */
  function UnsignedMax(size: int): nat
    requires size >= 0
  {
    if size < 8 then ByteRange(size) - 1 else TWO_64 - 1
  }

  /** `x` lies in the range of a `size`-byte two's-complement type. */
  predicate InSignedRange(x: int, size: nat)
    requires 1 <= size <= 8
  {
    -(HalfRange(size) as int) <= x < HalfRange(size)
  }

  /** `overflow_occurs`: is `value` outside the range of a `size`-byte two's-complement type? */
  function OverflowOccurs(value: Int64, size: int): (r: bool)
    requires 1 <= size <= 8
  {
    var max := HalfRange(size) - 1;
    var min := -max - 1;
    value > max || value < min
  }

  /** `overflow_occurs_unsigned`: is `value` above the largest `size`-byte unsigned value? */
  function OverflowOccursUnsigned(value: UInt64, size: int): (r: bool)
    requires size >= 0
    ensures size >= 8 ==> !r
  {
    value > UnsignedMax(size)
  }

  /**
   * `overflow_occurs_string`: the unsigned check applied to the line's
   * number. On a line `isnumber` accepted it holds exactly when the number
   * needs more than `size` bytes.
   */
  function OverflowOccursString(buf: string, size: int): (r: bool)
    requires size >= 0
    ensures r ==> size < 8
    ensures NumberLine(buf) ==> (r <==> size < 8 && DecimalValue(FirstLine(buf)) >= ByteRange(size))
  {
    var r := StrToULL(buf) > UnsignedMax(size);
    assert NumberLine(buf) ==> (r <==> size < 8 && DecimalValue(FirstLine(buf)) >= ByteRange(size)) by {
      if NumberLine(buf) {
        NumberLineDigits(buf);
      }
    }
    r
  }

  /** The signed check accepts exactly the range [kMinValue[t], kMaxValue[t]] of each signed integer type. */
  lemma OverflowMatchesSignedTables(t: TypeTag, v: Int64)
    requires t in {CHAR, SHORT, INT, LONG, LONG_LONG}
    ensures !OverflowOccurs(v, SizeOfType(t)) <==> kMinValue[t] <= v <= kMaxValue[t].value
  {
  }

  /**
   * The unsigned check accepts exactly the values up to kMaxValue[t] for the
   * narrow unsigned types and every value for the 64-bit ones, whose table
   * entry has wrapped to -1.
   */
  lemma OverflowMatchesUnsignedTables(t: TypeTag, v: UInt64)
    requires t in {U_CHAR, U_SHORT, U_INT, U_LONG, U_LONG_LONG}
    ensures !OverflowOccursUnsigned(v, SizeOfType(t)) <==>
      (t in {U_LONG, U_LONG_LONG} || v <= kMaxValue[t].value)
  {
    if t == U_CHAR {
      assert UnsignedMax(SizeOfType(t)) == 0xFF == kMaxValue[t].value;
    } else if t == U_SHORT {
      assert UnsignedMax(SizeOfType(t)) == 0xFFFF == kMaxValue[t].value;
    } else if t == U_INT {
      assert UnsignedMax(SizeOfType(t)) == 0xFFFF_FFFF == kMaxValue[t].value;
    } else {
      assert SizeOfType(t) == 8;
    }
  }

  // ------------------------------------------------------- value readers

  /** Why the replay driver exits instead of reading a value. */
  datatype ReadError = NoValue | NonNumber | Overflow

  datatype ReadResult<T> = Read(value: T) | Fail(error: ReadError)

  /** Reading a `size`-byte value as `__CrownChar` .. `__CrownLongLong` do: the digits must fit `size` unsigned bytes. */
  function CheckLine(line: Option<string>, size: nat): (r: ReadResult<UInt64>)
    ensures r.Read? ==> line.Some? && NumberLine(line.value)
    ensures r.Read? ==> size < 8 ==> r.value < ByteRange(size)
  {
    match line
    case None => Fail(NoValue)
    case Some(buf) =>
      if !NumberLine(buf) then Fail(NonNumber)
      else if OverflowOccursString(buf, size) then Fail(Overflow)
      else Read(StrToULL(buf))
  }

  /** `(T)x` for a `size`-byte signed `T`: the low bits read as two's complement. */
  function WrapSigned(x: int, size: nat): (r: int)
    requires 1 <= size <= 8
    ensures InSignedRange(r, size)
    ensures InSignedRange(x, size) ==> r == x
  {
    var half: int := HalfRange(size);
    var range: int := ByteRange(size);
    assert range == 2 * half;
    var m := x % range;
    assert InSignedRange(x, size) ==> m == (if x >= 0 then x else x + range) by {
      if 0 <= x < half {
        DivModUnique(x, 0, x, range);
      } else if -half <= x < 0 {
        DivModUnique(x, -1, x + range, range);
      }
    }
    if m < half then m else m - range
  }

  /** A signed read (`__CrownChar` .. `__CrownLongLong`): the unsigned check, `strtoll`, and a cast to the type. */
  function ReadSigned(line: Option<string>, size: nat): (r: ReadResult<int>)
    requires size in {1, 2, 4, 8}
    ensures r.Read? ==> InSignedRange(r.value, size)
  {
    match CheckLine(line, size)
    case Fail(e) => Fail(e)
    case Read(v) =>
      var ll := if v < 0x8000_0000_0000_0000 then v else 0x7FFF_FFFF_FFFF_FFFF;
      Read(WrapSigned(ll, size))
  }

  /** An unsigned read (`__CrownUChar` .. `__CrownULongLong`): `strtoull`, the unsigned check, and a cast. */
  function ReadUnsigned(line: Option<string>, size: nat): (r: ReadResult<nat>)
    requires size in {1, 2, 4, 8}
    ensures r.Read? ==> r.value < ByteRange(size)
  {
    match line
    case None => Fail(NoValue)
    case Some(buf) =>
      if !NumberLine(buf) then Fail(NonNumber)
      else
        var ull := StrToULL(buf);
        if OverflowOccursUnsigned(ull, size) then Fail(Overflow)
        else Read(ull % ByteRange(size))
  }

  /** What the unsigned checks see on the line the search writes for a non-negative value. */
  lemma {:induction false} DecimalLineReads(v: nat)
    ensures NumberLine(Decimal(v) + "\n")
    ensures StrToULL(Decimal(v) + "\n") == if v < TWO_64 then v else TWO_64 - 1
    ensures forall size :: 0 <= size < 8 ==>
      (OverflowOccursString(Decimal(v) + "\n", size) <==> v >= ByteRange(size))
  {
    DecimalLine(v);
    DecimalRoundTrip(v);
  }

  /**
   * The line the search writes for a non-negative value reads back as that
   * value when it fits the type; otherwise the read fails on overflow, or
   * for 64-bit types saturates at the largest value as `strtoull` does.
   */
  lemma ReadUnsignedOfDecimal(v: nat, size: nat)
    requires size in {1, 2, 4, 8}
    ensures ReadUnsigned(Some(Decimal(v) + "\n"), size) ==
      if v < ByteRange(size) then Read(v)
      else if size < 8 then Fail(Overflow)
      else Read(TWO_64 - 1)
  {
    var line := Decimal(v) + "\n";
    DecimalLineReads(v);
    var range := ByteRange(size);
    var ull := StrToULL(line);
    assert range <= TWO_64;
    if v < range {
      assert ull == v;
      assert !OverflowOccursUnsigned(ull, size);
      DivModUnique(v, 0, v, range);
    } else if size < 8 {
      assert range <= 0x100_0000_0000_0000;
      assert OverflowOccursUnsigned(ull, size);
    } else {
      assert ull == TWO_64 - 1;
      DivModUnique(ull, 0, ull, range);
    }
  }

  // ----------------------------------------- the signed-input finding

  /**
   * The search writes every integer input with `%lld`, so a negative value
   * arrives as "-" and digits. The signed readers reject it as a non-number,
   * and accept out-of-range magnitudes such as 200 for a `char`.
   */
  lemma ReadSignedRejectsNegative(v: Int64, size: nat)
    requires size in {1, 2, 4, 8} && v < 0
    ensures ReadSigned(Some(FormatLLD(v) + "\n"), size) == Fail(NonNumber)
  {
    var buf := FormatLLD(v) + "\n";
    assert buf[0] == '-';
    assert FirstLine(buf)[0] == '-';
  }

  /** A `char` read of a magnitude from 128 to 255 wraps to the negative value with the same low byte. */
  lemma ReadSignedWrapsChar(v: nat)
    requires 128 <= v < 256
    ensures ReadSigned(Some(Decimal(v) + "\n"), 1) == Read(v - 256)
  {
    DecimalLineReads(v);
    assert CheckLine(Some(Decimal(v) + "\n"), 1) == Read(v);
    assert WrapSigned(v, 1) == v - 256 by {
      DivModUnique(v, 0, v, 256);
    }
  }

  /** `strtoll` on a line of an optional '-' and digits, saturating at the `long long` range. */
  function StrToLL(neg: bool, magnitude: nat): (r: Int64)
    ensures InSignedRange(if neg then -(magnitude as int) else magnitude, 8) ==>
      r == if neg then -(magnitude as int) else magnitude
  {
    if neg then (if magnitude > 0x8000_0000_0000_0000 then -0x8000_0000_0000_0000 else -(magnitude as int))
    else (if magnitude > 0x7FFF_FFFF_FFFF_FFFF then 0x7FFF_FFFF_FFFF_FFFF else magnitude)
  }

  /**
   * The signed read the writer's `%lld` format calls for: an optional '-',
   * digits, `strtoll`, and the signed `overflow_occurs` check.
   */
  function ReadSignedFixed(line: Option<string>, size: nat): (r: ReadResult<int>)
    requires size in {1, 2, 4, 8}
    ensures r.Read? ==> InSignedRange(r.value, size)
  {
    match line
    case None => Fail(NoValue)
    case Some(buf) =>
      var neg := |buf| > 0 && buf[0] == '-';
      var digits := if neg then buf[1..] else buf;
      if !NumberLine(digits) then Fail(NonNumber)
      else
        var ll := StrToLL(neg, DecimalValue(LeadingDigits(digits)));
        if OverflowOccurs(ll, size) then Fail(Overflow) else Read(ll)
  }

  /** The signed read of a line of digits: the magnitude is the number they denote. */
  lemma {:induction false} ReadSignedFixedDigits(buf: string, neg: bool, m: nat, size: nat)
    requires size in {1, 2, 4, 8}
    requires buf == (if neg then "-" else "") + Decimal(m) + "\n"
    ensures ReadSignedFixed(Some(buf), size) ==
      var ll := StrToLL(neg, m);
      if OverflowOccurs(ll, size) then Fail(Overflow) else Read(ll)
  {
    var digits := Decimal(m) + "\n";
    SignedLineParts(buf, neg, m);
    DecimalLine(m);
    DecimalRoundTrip(m);
    assert DecimalValue(LeadingDigits(digits)) == m;
  }

  /** A signed line: the sign is seen exactly when written, and the digits follow it. */
  lemma SignedLineParts(buf: string, neg: bool, m: nat)
    requires buf == (if neg then "-" else "") + Decimal(m) + "\n"
    ensures |buf| > 0 && (buf[0] == '-' <==> neg)
    ensures (if neg then buf[1..] else buf) == Decimal(m) + "\n"
  {
    var digits := Decimal(m) + "\n";
    DecimalLine(m);
    if neg {
      assert buf[1..] == digits;
    } else {
      assert buf == digits && IsDigit(buf[0]);
    }
  }

  /** Every value of a signed `size`-byte type reads back from the line the search writes for it. */
  lemma ReadSignedFixedRoundTrip(v: Int64, size: nat)
    requires size in {1, 2, 4, 8}
    requires InSignedRange(v, size)
    ensures ReadSignedFixed(Some(FormatLLD(v) + "\n"), size) == Read(v)
  {
    var neg := v < 0;
    var m: nat := if neg then -(v as int) else v;
    assert FormatLLD(v) + "\n" == (if neg then "-" else "") + Decimal(m) + "\n";
    ReadSignedFixedDigits(FormatLLD(v) + "\n", neg, m, size);
    assert StrToLL(neg, m) == v;
  }

  // ---------------------------------------------------------- bit-fields

  /**
   * A union bit-field (`__CrownBitField` with index count 0): one value line,
   * checked as a `char`, of which bits `l .. h-1` are the field's value.
   */
  function ReadBitFieldUnion(h: nat, l: nat, line: Option<string>): (r: ReadResult<nat>)
    requires l <= h <= 8
    ensures r.Read? <==> CheckLine(line, 1).Read?
    ensures r.Fail? ==> r.error == CheckLine(line, 1).error
    ensures r.Read? ==> r.value < Pow2(h - l) && r.value == BitField(CheckLine(line, 1).value, l, h - l)
  {
    match CheckLine(line, 1)
    case Fail(e) => Fail(e)
    case Read(v) => Read(BitField(v, l, h - l))
  }

  /** One byte of a struct bit-field in the input file: the h and l of its header, and its value line. */
  datatype FilePiece = FilePiece(h: nat, l: nat, line: Option<string>)

  predicate ValidPieces(ps: seq<FilePiece>) {
    forall k :: 0 <= k < |ps| ==> ps[k].l <= ps[k].h <= 8
  }

  /** The first `i` pieces passed their checks. */
  predicate ReadUpTo(ps: seq<FilePiece>, i: nat)
    requires i <= |ps|
  {
    forall k :: 0 <= k < i ==> CheckLine(ps[k].line, 1).Read?
  }

  /** Piece `k` is the first whose line fails its checks. */
  predicate FirstFailure(ps: seq<FilePiece>, k: int) {
    0 <= k < |ps| && CheckLine(ps[k].line, 1).Fail? && ReadUpTo(ps, k)
  }

  /** The value read for each of the first `n` pieces, with its bit range. */
  function ChunksRead(ps: seq<FilePiece>, n: nat): (cs: seq<BitFields.Chunk>)
    requires ValidPieces(ps) && n <= |ps| && ReadUpTo(ps, n)
    ensures |cs| == n && BitFields.ValidChunks(cs)
    ensures forall k :: 0 <= k < n ==>
      cs[k] == BitFields.Chunk(CheckLine(ps[k].line, 1).value, ps[k].h, ps[k].l)
  {
    if n == 0 then [] else ChunksRead(ps, n - 1) + [BitFields.Chunk(CheckLine(ps[n - 1].line, 1).value, ps[n - 1].h, ps[n - 1].l)]
  }

  /** `cs` holds the chunks of the first `|cs|` pieces, each of which passed its checks. */
  predicate ChunksOf(ps: seq<FilePiece>, cs: seq<BitFields.Chunk>) {
    |cs| <= |ps| && ReadUpTo(ps, |cs|) &&
    forall k :: 0 <= k < |cs| ==> cs[k] == BitFields.Chunk(CheckLine(ps[k].line, 1).value, ps[k].h, ps[k].l)
  }

  /** A piece that passes its checks adds its chunk. */
  lemma ChunksOfStep(ps: seq<FilePiece>, cs: seq<BitFields.Chunk>)
    requires ChunksOf(ps, cs) && |cs| < |ps| && CheckLine(ps[|cs|].line, 1).Read?
    ensures ChunksOf(ps, cs + [BitFields.Chunk(CheckLine(ps[|cs|].line, 1).value, ps[|cs|].h, ps[|cs|].l)])
  {
  }

  /** A piece that passes its checks with value `v` adds its bits above those read so far. */
  lemma {:induction false} PieceStep(ps: seq<FilePiece>, cs: seq<BitFields.Chunk>, v: nat)
    requires ValidPieces(ps) && ChunksOf(ps, cs) && BitFields.ValidChunks(cs) && |cs| < |ps|
    requires CheckLine(ps[|cs|].line, 1) == Read(v)
    ensures var p := ps[|cs|];
      var cs' := cs + [BitFields.Chunk(v, p.h, p.l)];
      ChunksOf(ps, cs') && BitFields.ValidChunks(cs') &&
      BitFields.Span(cs') == BitFields.Span(cs) + (p.h - p.l) &&
      BitFields.Pack(cs') == BitField(v, p.l, p.h - p.l) * Pow2(BitFields.Span(cs)) + BitFields.Pack(cs)
  {
    var c := BitFields.Chunk(v, ps[|cs|].h, ps[|cs|].l);
    BitFields.PackAppend(cs, c);
    ChunksOfStep(ps, cs);
  }

  /** The chunks of all pieces, listed one by one, are `ChunksRead`. */
  lemma ChunksReadIs(ps: seq<FilePiece>, cs: seq<BitFields.Chunk>)
    requires ValidPieces(ps) && ChunksOf(ps, cs) && |cs| == |ps|
    ensures cs == ChunksRead(ps, |ps|)
  {
  }

  /**
   * A struct bit-field (`__CrownBitField` with a non-zero index count): each
   * piece's bits are OR-ed in above the ones read so far, `bfsize` counting
   * the bits placed. The first piece whose line fails its checks ends the
   * read with that error. The pieces of one field span at most 64 bits.
   */
  method ReadBitFieldStruct(ps: seq<FilePiece>) returns (r: ReadResult<nat>)
    requires |ps| >= 1 && ValidPieces(ps)
    requires ReadUpTo(ps, |ps|) ==> BitFields.Span(ChunksRead(ps, |ps|)) <= 64
    ensures r.Read? <==> ReadUpTo(ps, |ps|)
    ensures r.Fail? ==> exists k :: FirstFailure(ps, k) && CheckLine(ps[k].line, 1) == Fail(r.error)
    ensures r.Read? ==> r.value == BitFields.Pack(ChunksRead(ps, |ps|)) && r.value < TWO_64
  {
    var result := 0;
    var bfsize := 0;
    ghost var cs: seq<BitFields.Chunk> := [];
    var i := 0;
    while i < |ps|
      invariant i == |cs| && ChunksOf(ps, cs) && BitFields.ValidChunks(cs)
      invariant bfsize == BitFields.Span(cs) && result == BitFields.Pack(cs)
    {
      match CheckLine(ps[i].line, 1)
      case Fail(e) =>
        assert FirstFailure(ps, i);
        return Fail(e);
      case Read(v) =>
        var w := ps[i].h - ps[i].l;
        var bits := BitField(v, ps[i].l, w);
        PieceStep(ps, cs, v);
        // `result` has no bit at or above `bfsize`, so the OR is a sum
        result := bits * Pow2(bfsize) + result;
        bfsize := bfsize + w;
        cs := cs + [BitFields.Chunk(v, ps[i].h, ps[i].l)];
        i := i + 1;
    }
    ChunksReadIs(ps, cs);
    BitFields.PackWithin64(cs);
    return Read(result);
  }

  /**
   * The numbers on the header line `WriteInputToFileOrDie` prints for an
   * input: the type alone when `h` is 0, otherwise type, h, l and index count.
   */
  function HeaderNumbers(ty: int, h: nat, l: nat, idx: nat): (r: seq<int>)
    ensures |r| >= 1 && r[0] == ty
    ensures h == 0 <==> |r| == 1
    ensures h != 0 ==> r[1..] == [h, l, idx]
  {
    if h == 0 then [ty] else [ty, h, l, idx]
  }

  /** The header line printed for one piece of a struct bit-field. */
  function PieceHeader(p: BitFields.Piece): seq<int> {
    HeaderNumbers(p.ty, p.h, p.l, p.indexSize)
  }

  /**
   * The struct loop's reading of the next piece's header: `strtok` takes the
   * second and third numbers as `hBit` and `lBit`. With fewer than three
   * numbers it returns NULL, which goes to `atoi`; that has no defined
   * result, shown as `None`.
   */
  function HeaderBitsAsWritten(nums: seq<int>): (r: Option<(int, int)>)
    ensures r.Some? <==> |nums| >= 3
    ensures r.Some? ==> r.value == (nums[1], nums[2])
  {
    if |nums| >= 3 then Some((nums[1], nums[2])) else None
  }

  /**
   * Every struct bit-field spanning three bytes or more has a middle byte,
   * whose header holds only its type, so the struct loop hands NULL to `atoi`
   * when it reaches it.
   */
  lemma MiddleHeaderUnreadable(lowestBit: nat, highestBit: nat)
    requires lowestBit < highestBit <= 2048 && BitFields.LayoutOf(lowestBit, highestBit).indexSize >= 3
    ensures HeaderBitsAsWritten(PieceHeader(BitFields.Pieces(BitFields.LayoutOf(lowestBit, highestBit))[1])) == None
  {
    var ps := BitFields.Pieces(BitFields.LayoutOf(lowestBit, highestBit));
    assert ps[1] == BitFields.MIDDLE;
  }

  /** A 24-bit field at bit 0 spans three bytes, so its second header cannot be read. */
  lemma ThreeByteFieldUnreadable()
    ensures BitFields.LayoutOf(0, 24).indexSize == 3
    ensures HeaderBitsAsWritten(PieceHeader(BitFields.Pieces(BitFields.LayoutOf(0, 24))[1])) == None
  {
    MiddleHeaderUnreadable(0, 24);
  }

  /** The reading intended: a header with only a type is a plain byte, all of whose bits 0 .. 7 belong to the field. */
  function HeaderBits(nums: seq<int>): (r: Option<(int, int)>)
    ensures |nums| >= 3 ==> r == Some((nums[1], nums[2]))
    ensures |nums| == 1 ==> r == Some((8, 0))
    ensures r.None? <==> |nums| == 0 || |nums| == 2
  {
    if |nums| >= 3 then Some((nums[1], nums[2]))
    else if |nums| == 1 then Some((8, 0))
    else None
  }

  /**
   * With the intended reading, the header of every piece of a struct
   * bit-field gives back a bit range within a byte that carries exactly the
   * piece's bits of the field, so the ranges add up to the field's width.
   */
  lemma HeadersRecoverField(lowestBit: nat, highestBit: nat)
    requires lowestBit < highestBit <= 2048
    ensures var ps := BitFields.Pieces(BitFields.LayoutOf(lowestBit, highestBit));
      forall k | 0 <= k < |ps| ::
        HeaderBits(PieceHeader(ps[k])).Some? &&
        var (h, l) := HeaderBits(PieceHeader(ps[k])).value;
        0 <= l <= h <= 8 && h - l == BitFields.FieldWidth(ps[k])
  {
    var ps := BitFields.Pieces(BitFields.LayoutOf(lowestBit, highestBit));
    BitFields.LayoutCoversField(lowestBit, highestBit);
    forall k | 0 <= k < |ps|
      ensures HeaderBits(PieceHeader(ps[k])).Some? &&
        var (h, l) := HeaderBits(PieceHeader(ps[k])).value;
        0 <= l <= h <= 8 && h - l == BitFields.FieldWidth(ps[k])
    {
      assert ps[k] in ps;
    }
  }
}
