/** Powers of two and the division facts the bit-level models rely on. */
module Arith {

  function Pow2(k: nat): (r: nat)
    ensures r >= 1
  {
    if k == 0 then 1 else 2 * Pow2(k - 1)
  }

  lemma Pow2Values()
    ensures Pow2(8) == 0x100 && Pow2(16) == 0x1_0000
    ensures Pow2(32) == 0x1_0000_0000 && Pow2(64) == 0x1_0000_0000_0000_0000
  {
    assert Pow2(8) == 0x100;
    Pow2Add(8, 8);
    Pow2Add(16, 16);
    Pow2Add(32, 32);
  }

  lemma {:induction false} Pow2Add(a: nat, b: nat)
    ensures Pow2(a + b) == Pow2(a) * Pow2(b)
  {
    if a > 0 {
      Pow2Add(a - 1, b);
      assert Pow2(a + b) == 2 * Pow2(a - 1 + b);
    }
  }

  lemma {:induction false} Pow2Monotone(a: nat, b: nat)
    requires a <= b
    ensures Pow2(a) <= Pow2(b)
  {
    if a < b {
      Pow2Monotone(a, b - 1);
    }
  }

  /** Dividing by `a` and then by `b` is dividing by `a * b`. */
  lemma DivDiv(v: nat, a: nat, b: nat)
    requires a > 0 && b > 0
    ensures v / a / b == v / (a * b)
  {
    var q := v / (a * b);
    var r := v % (a * b);
    var r1 := r % a;
    var r2 := r / a;
    assert r2 < b by {
      if r2 >= b {
        MulAtLeast(r2, b, a);
      }
    }
    assert v == (q * b + r2) * a + r1 by {
      assert v == q * (a * b) + r;
      assert r == r2 * a + r1;
    }
    DivModUnique(v, q * b + r2, r1, a);
    DivModUnique(q * b + r2, q, r2, b);
  }

  lemma MulAtLeast(x: int, y: int, p: int)
    requires x >= y && p >= 0
    ensures x * p >= y * p
  {
    assert x * p - y * p == (x - y) * p;
  }

  lemma DivPow2Step(v: nat, i: nat)
    ensures v / Pow2(i) / 2 == v / Pow2(i + 1)
  {
    DivDiv(v, Pow2(i), 2);
  }

  /** `(a * p + b) / p == a` and `(a * p + b) % p == b` for a digit `b`. */
  lemma DivModUnique(v: int, a: int, b: int, p: int)
    requires p > 0 && 0 <= b < p && v == a * p + b
    ensures v / p == a && v % p == b
  {
    var q, r := v / p, v % p;
    assert q * p + r == a * p + b;
    if q > a {
      MulAtLeast(q, a + 1, p);
    } else if q < a {
      MulAtLeast(a, q + 1, p);
    }
  }

  /** Stepping on from a multiple of `n`: by less than `n` leaves that remainder, by `n` none. */
  lemma ModStep(k: nat, d: nat, n: nat)
    requires n >= 1 && k % n == 0 && d < n
    ensures (k + d) % n == d && (k + n) % n == 0
  {
    DivModUnique(k + d, k / n, d, n);
    DivModUnique(k + n, k / n + 1, 0, n);
  }

  /** Splitting off the lowest bit commutes with reduction modulo a power of two. */
  lemma ModDouble(v: nat, p: nat)
    requires p > 0
    ensures 2 * ((v / 2) % p) + v % 2 == v % (2 * p)
  {
    var q := v / 2;
    var b := v % 2;
    var hi := q / p;
    var lo := q % p;
    assert q == hi * p + lo;
    assert v == hi * (2 * p) + (2 * lo + b);
    DivModUnique(v, hi, 2 * lo + b, 2 * p);
  }

  lemma MulAddDistrib(a: int, b: int, c: int)
    ensures (a + b) * c == a * c + b * c
  {
  }

  lemma MulAssocComm(a: int, b: int, c: int)
    ensures a * (b * c) == (a * c) * b
  {
  }

  lemma ModAddMultiple(a: nat, b: nat, p: nat)
    requires p > 0
    ensures (a * p + b) % p == b % p
  {
    var q, r := b / p, b % p;
    assert a * p + b == (a + q) * p + r by { MulAddDistrib(a, q, p); }
    DivModUnique(a * p + b, a + q, r, p);
  }

  /** The `w`-bit field of `v` at bit `off`: `(v >> off) & ((1 << w) - 1)`. */
  function BitField(v: nat, off: nat, w: nat): (r: nat)
    ensures r < Pow2(w)
  {
    (v / Pow2(off)) % Pow2(w)
  }

  /** A `w`-bit value placed at `off` above anything smaller reads back, and the sum stays below bit `off + w`. */
  lemma PlacedField(f: nat, acc: nat, off: nat, w: nat)
    requires f < Pow2(w) && acc < Pow2(off)
    ensures BitField(f * Pow2(off) + acc, off, w) == f
    ensures f * Pow2(off) + acc < Pow2(off + w)
  {
    var p, pw := Pow2(off), Pow2(w);
    DivModUnique(f * p + acc, f, acc, p);
    DivModUnique(f, 0, f, pw);
    assert pw * p >= f * p + p by {
      MulAtLeast(pw, f + 1, p);
      MulAddDistrib(f, 1, p);
    }
    Pow2Add(off, w);
  }

  /** Adding a multiple of `2^(off + d)` leaves a field that ends at or below bit `off + d` unchanged. */
  lemma FieldBelow(f: nat, acc: nat, off: nat, d: nat, w: nat)
    requires w <= d
    ensures BitField(f * Pow2(off + d) + acc, off, w) == BitField(acc, off, w)
  {
    var p0, pd, pw, pe := Pow2(off), Pow2(d), Pow2(w), Pow2(d - w);
    assert Pow2(off + d) == p0 * pd by { Pow2Add(off, d); }
    assert pd == pw * pe by { Pow2Add(w, d - w); }
    var q, r := acc / p0, acc % p0;
    assert f * Pow2(off + d) == (f * pd) * p0 by { MulAssocComm(f, p0, pd); }
    assert f * Pow2(off + d) + acc == (f * pd + q) * p0 + r by {
      MulAddDistrib(f * pd, q, p0);
    }
    DivModUnique(f * Pow2(off + d) + acc, f * pd + q, r, p0);
    assert f * pd == (f * pe) * pw by { MulAssocComm(f, pw, pe); }
    ModAddMultiple(f * pe, q, pw);
  }

  /** Reducing a summand first does not change the remainder of the sum. */
  lemma ModAddMod(a: nat, b: nat, p: nat)
    requires p > 0
    ensures (a % p + b) % p == (a + b) % p
  {
    ModAddMultiple(a / p, a % p + b, p);
    assert a / p * p + (a % p + b) == a + b;
  }

  /**
   * Floor division by `p * q` is division by `p`, then by `q`; the remainder
   * is two digits, the low one modulo `p` and the next one modulo `q`.
   */
  lemma ModMul(v: int, p: int, q: int)
    requires p > 0 && q > 0
    ensures v / p / q == v / (p * q)
    ensures v % (p * q) == ((v / p) % q) * p + v % p
  {
    var q1, r1 := v / p, v % p;
    var q2, r2 := q1 / q, q1 % q;
    var pq := p * q;
    assert 0 <= r2 * p + r1 < pq by {
      assert r2 * p <= (q - 1) * p by { MulAtLeast(q - 1, r2, p); }
      assert (q - 1) * p + p == pq by { MulAddDistrib(q - 1, 1, p); }
    }
    assert v == q2 * pq + (r2 * p + r1) by {
      assert q1 == q2 * q + r2;
      assert v == q1 * p + r1;
      MulAddDistrib(q2 * q, r2, p);
      MulAssocComm(q2, q, p);
    }
    DivModUnique(v, q2, r2 * p + r1, pq);
  }

  /** The remainder modulo `p * q` keeps the remainder modulo `p`, and lies in the last `p`-wide step below `p * q`. */
  lemma ModFactor(v: nat, p: nat, q: nat)
    requires p > 0 && q > 0
    ensures (v % (p * q)) % p == v % p
    ensures v % (p * q) <= p * q - p + v % p
  {
    ModMul(v, p, q);
    var t := (v / p) % q;
    assert t * p <= (q - 1) * p by { MulAtLeast(q - 1, t, p); }
    assert (q - 1) * p == p * q - p by { MulAddDistrib(q, -1, p); }
    DivModUnique(v % (p * q), t, v % p, p);
  }
}
