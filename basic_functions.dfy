/**
 * Bit-level helpers for floating-point inputs: a float or double travels
 * between the search and the replay driver as a string of '0'/'1'
 * characters, most significant bit first. Floating-point values are handled
 * only as their raw bit patterns.
 */
module BasicFunctions {
  import opened Arith
  import opened BasicTypes

  predicate IsBinaryDigit(c: char) {
    c == '0' || c == '1'
  }

  predicate AllBinary(s: string) {
    forall k :: 0 <= k < |s| ==> IsBinaryDigit(s[k])
  }

  /** `v >> i` on a non-negative number. */
  function Shr(v: nat, i: nat): nat {
    if i == 0 then v else Shr(v / 2, i - 1)
  }

  lemma {:induction false} ShrSucc(v: nat, i: nat)
    ensures Shr(v, i) / 2 == Shr(v, i + 1)
  {
    if i > 0 {
      ShrSucc(v / 2, i - 1);
    }
  }

  /** The `w` low bits of `v`, most significant first. */
  function BinString(v: nat, w: nat): (s: string)
    ensures |s| == w
  {
    if w == 0 then [] else BinString(v / 2, w - 1) + [if v % 2 == 1 then '1' else '0']
  }

  /** Position `k` of the string is bit `w - 1 - k` of `v`. */
  lemma {:induction false} BinStringAt(v: nat, w: nat, k: nat)
    requires k < w
    ensures BinString(v, w)[k] == if Shr(v, w - 1 - k) % 2 == 1 then '1' else '0'
  {
    if k < w - 1 {
      BinStringAt(v / 2, w - 1, k);
    }
  }

  /**
   * The accumulation of binStringToFloat/binStringToDouble: shift left and add
   * the character's distance from '0', keeping the low `w` bits as the
   * fixed-width integer does.
   */
  function ParseBinString(s: string, w: nat): (r: nat)
    ensures r < Pow2(w)
  {
    if s == [] then 0
    else (ParseBinString(s[..|s| - 1], w) * 2 + (s[|s| - 1] as int - '0' as int)) % Pow2(w)
  }

  /** The loop of floatToBinString/doubleToBinString: bits `w-1` down to 0 of `v`. */
  method ToBinString(v: nat, w: nat) returns (s: string)
    ensures s == BinString(v, w)
  {
    s := [];
    var i: int := w - 1;
    while i >= 0
      invariant -1 <= i < w
      invariant s == BinString(Shr(v, i + 1), w - 1 - i)
    {
      ShrSucc(v, i);
      s := s + [if Shr(v, i) % 2 == 1 then '1' else '0'];
      i := i - 1;
    }
  }

  /** The loop of binStringToFloat/binStringToDouble over the first `w` characters. */
  method FromBinString(s: string, w: nat) returns (r: nat)
    requires |s| >= w
    ensures r == ParseBinString(s[..w], w)
  {
    r := 0;
    var i := 0;
    while i < w
      invariant 0 <= i <= w
      invariant r == ParseBinString(s[..i], w)
    {
      assert s[..i + 1][..i] == s[..i];
      r := (r * 2 + (s[i] as int - '0' as int)) % Pow2(w);
      i := i + 1;
    }
  }

  method FloatToBinString(bits: UInt32) returns (s: string)
    ensures |s| == 32 && AllBinary(s)
    ensures ParseBinString(s, 32) == bits
  {
    Pow2Values();
    s := ToBinString(bits, 32);
    BinStringDigits(bits, 32);
    BinStringRoundTrip(bits, 32);
  }

  method DoubleToBinString(bits: UInt64) returns (s: string)
    ensures |s| == 64 && AllBinary(s)
    ensures ParseBinString(s, 64) == bits
  {
    Pow2Values();
    s := ToBinString(bits, 64);
    BinStringDigits(bits, 64);
    BinStringRoundTrip(bits, 64);
  }

  method BinStringToFloat(s: string) returns (bits: UInt32)
    requires |s| >= 32
    ensures AllBinary(s[..32]) ==> BinString(bits, 32) == s[..32]
  {
    Pow2Values();
    var r := FromBinString(s, 32);
    bits := r;
    if AllBinary(s[..32]) {
      ParseBinStringRoundTrip(s[..32]);
    }
  }

  method BinStringToDouble(s: string) returns (bits: UInt64)
    requires |s| >= 64
    ensures AllBinary(s[..64]) ==> BinString(bits, 64) == s[..64]
  {
    Pow2Values();
    var r := FromBinString(s, 64);
    bits := r;
    if AllBinary(s[..64]) {
      ParseBinStringRoundTrip(s[..64]);
    }
  }

  lemma {:induction false} BinStringDigits(v: nat, w: nat)
    ensures AllBinary(BinString(v, w))
  {
    if w > 0 {
      BinStringDigits(v / 2, w - 1);
      assert forall k :: 0 <= k < w - 1 ==> BinString(v, w)[k] == BinString(v / 2, w - 1)[k];
    }
  }

  /** Decoding an encoded bit pattern gives back its `w` low bits, whatever the decoder's width `ww >= w`. */
  lemma {:induction false} BinStringRoundTripWide(v: nat, w: nat, ww: nat)
    requires w <= ww
    ensures ParseBinString(BinString(v, w), ww) == v % Pow2(w)
  {
    if w > 0 {
      var s := BinString(v, w);
      assert s[..|s| - 1] == BinString(v / 2, w - 1);
      BinStringRoundTripWide(v / 2, w - 1, ww);
      ModDouble(v, Pow2(w - 1));
      var x := ParseBinString(s[..|s| - 1], ww) * 2 + (s[|s| - 1] as int - '0' as int);
      assert x == v % Pow2(w);
      Pow2Monotone(w, ww);
      DivModUnique(x, 0, x, Pow2(ww));
    }
  }

  /** Decoding an encoded `w`-bit pattern returns the same pattern. */
  lemma BinStringRoundTrip(v: nat, w: nat)
    requires v < Pow2(w)
    ensures ParseBinString(BinString(v, w), w) == v
  {
    BinStringRoundTripWide(v, w, w);
    DivModUnique(v, 0, v, Pow2(w));
  }

  /** Encoding a decoded string of '0'/'1' characters returns the same string. */
  lemma {:induction false} ParseBinStringRoundTrip(s: string)
    requires AllBinary(s)
    ensures BinString(ParseBinString(s, |s|), |s|) == s
  {
    if s != [] {
      var w := |s|;
      var init := s[..w - 1];
      ParseBinStringRoundTrip(init);
      ParseBinStringNarrow(init, w);
      var x := ParseBinString(init, w - 1) * 2 + (s[w - 1] as int - '0' as int);
      assert x < Pow2(w);
      DivModUnique(x, 0, x, Pow2(w));
      DivModUnique(x, ParseBinString(init, w - 1), s[w - 1] as int - '0' as int, 2);
      assert s == init + [s[w - 1]];
    }
  }

  /** A digit string of length `w - 1` decodes to the same number at widths `w - 1` and `w`. */
  lemma {:induction false} ParseBinStringNarrow(s: string, w: nat)
    requires |s| < w
    requires AllBinary(s)
    ensures ParseBinString(s, w) == ParseBinString(s, |s|) < Pow2(|s|)
  {
    if s != [] {
      var n := |s|;
      var init := s[..n - 1];
      ParseBinStringNarrow(init, w);
      ParseBinStringNarrow(init, n);
      var x := ParseBinString(init, n - 1) * 2 + (s[n - 1] as int - '0' as int);
      assert x < Pow2(n);
      Pow2Monotone(n, w);
      DivModUnique(x, 0, x, Pow2(w));
      DivModUnique(x, 0, x, Pow2(n));
    }
  }

  /** The fields of an IEEE-754 single: sign bit, 8-bit biased exponent, 23-bit significand. */
  function FloatFields(bits: bv32): (bv32, bv32, bv32) {
    (bits >> 31, (bits >> 23) & 0xFF, bits & 0x7F_FFFF)
  }

  /** The fields of an IEEE-754 double: sign bit, 11-bit biased exponent, 52-bit significand. */
  function DoubleFields(bits: bv64): (bv64, bv64, bv64) {
    (bits >> 63, (bits >> 52) & 0x7FF, bits & 0xF_FFFF_FFFF_FFFF)
  }

  /**
   * setFloatByInts, on the two's-complement patterns of its `int`, `long long`
   * and `unsigned long long` arguments: zero when exponent and significand are
   * both zero; otherwise the bias 127 is added and sign, exponent and
   * significand are OR-ed at bit positions 31, 23 and 0 after truncation to
   * 32 bits. Nothing is masked, so a field out of range overlaps its neighbour;
   * in range, each field can be read back.
   */
  function SetFloatByInts(sign: bv32, exp: bv64, sig: bv64): (bits: bv32)
    requires (exp == 0 && sig == 0) || sign == 0 || sign == 1
    ensures exp == 0 && sig == 0 ==> bits == 0
  {
    if exp == 0 && sig == 0 then 0
    else
      var e := ((exp + 127) & 0xFFFF_FFFF) as bv32;
      var m := (sig & 0xFFFF_FFFF) as bv32;
      (sign << 31) | (e << 23) | m
  }

  /** Fields OR-ed in at their positions read back. */
  lemma FloatFieldsOf(sign: bv32, e: bv32, m: bv32)
    requires sign <= 1 && e < 0x100 && m < 0x80_0000
    ensures FloatFields((sign << 31) | (e << 23) | m) == (sign, e, m)
  {
  }

  /** When the biased exponent fits 8 bits (a negative exponent included, in two's complement) and the significand 23 bits, the fields read back from a single. */
  lemma SetFloatByIntsFields(sign: bv32, exp: bv64, sig: bv64)
    requires sign == 0 || sign == 1
    requires !(exp == 0 && sig == 0) && exp + 127 < 0x100 && sig < 0x80_0000
    ensures FloatFields(SetFloatByInts(sign, exp, sig)) == (sign, (exp + 127) as bv32, sig as bv32)
  {
    var e := ((exp + 127) & 0xFFFF_FFFF) as bv32;
    var m := (sig & 0xFFFF_FFFF) as bv32;
    assert e == (exp + 127) as bv32 && e < 0x100;
    assert m == sig as bv32 && m < 0x80_0000;
    FloatFieldsOf(sign, e, m);
  }

  /** setDoubleByInts: as SetFloatByInts with bias 1023 and positions 63, 52 and 0 in 64 bits. */
  function SetDoubleByInts(sign: bv32, exp: bv64, sig: bv64): (bits: bv64)
    requires (exp == 0 && sig == 0) || sign == 0 || sign == 1
    ensures exp == 0 && sig == 0 ==> bits == 0
  {
    if exp == 0 && sig == 0 then 0
    else
      var s: bv64 := if sign == 0 then 0 else 1;
      (s << 63) | ((exp + 1023) << 52) | sig
  }

  /** Fields OR-ed in at their positions read back. */
  lemma DoubleFieldsOf(sign: bv64, e: bv64, m: bv64)
    requires sign <= 1 && e < 0x800 && m < 0x10_0000_0000_0000
    ensures DoubleFields((sign << 63) | (e << 52) | m) == (sign, e, m)
  {
  }

  /** When the biased exponent fits 11 bits (a negative exponent included, in two's complement) and the significand 52 bits, the fields read back from a double. */
  lemma SetDoubleByIntsFields(sign: bv32, exp: bv64, sig: bv64)
    requires sign == 0 || sign == 1
    requires !(exp == 0 && sig == 0) && exp + 1023 < 0x800 && sig < 0x10_0000_0000_0000
    ensures DoubleFields(SetDoubleByInts(sign, exp, sig)) == (sign as bv64, exp + 1023, sig)
  {
    var s: bv64 := if sign == 0 then 0 else 1;
    var e := exp + 1023;
    assert s == sign as bv64 && s <= 1 && e < 0x800;
    assert SetDoubleByInts(sign, exp, sig) == (s << 63) | (e << 52) | sig;
    DoubleFieldsOf(s, e, sig);
  }
}
