/** Shifts, masks and bitwise "or" of C on unsigned words, as arithmetic. */
module Bits {
  import opened Arith

  function BitOr(a: nat, b: nat): (r: nat)
  {
    if a == 0 then b
    else if b == 0 then a
    else 2 * BitOr(a / 2, b / 2) + if a % 2 == 1 || b % 2 == 1 then 1 else 0
  }

  /** v >> k */
  function Shr(v: nat, k: nat): (r: nat)
    ensures r <= v
  {
    ShrBound(v, Pow(2, k));
    v / Pow(2, k)
  }

  lemma {:induction false} ShrBound(v: nat, p: nat)
    requires p > 0
    ensures v / p <= v
  {
    if v < v / p {
      MulLe(1, p, v / p);
    }
  }

  /** v << k in 32 bits */
  function Shl(v: nat, k: nat): (r: nat)
    ensures r < 0x1_0000_0000
  {
    (v * Pow(2, k)) % 0x1_0000_0000
  }

  /** v & ((1 << k) - 1) */
  function LowBits(v: nat, k: nat): (r: nat)
    ensures r < Pow(2, k)
  {
    v % Pow(2, k)
  }

  lemma {:induction false} ShrLow(v: nat, k: nat)
    ensures v == Pow(2, k) * Shr(v, k) + LowBits(v, k)
  {
  }

  lemma {:induction false} NoBits(v: nat)
    ensures LowBits(v, 0) == 0
  {
    PowOne(2);
  }

  lemma {:induction false} Pow2Complement(k: nat)
    requires k <= 32
    ensures Pow(2, k) * Pow(2, 32 - k) == 0x1_0000_0000
  {
    hide Pow;
    Pow2Large();
    PowAdd(2, k, 32 - k);
  }

  /** An "or" of disjoint bits is a sum. */
  lemma {:induction false} OrDisjoint(h: nat, l: nat, k: nat)
    requires l < Pow(2, k)
    ensures BitOr(h * Pow(2, k), l) == h * Pow(2, k) + l
  {
    if h == 0 || l == 0 || k == 0 {
    } else {
      var p := Pow(2, k - 1);
      assert h * Pow(2, k) == 2 * (h * p);
      OrDisjoint(h, l / 2, k - 1);
    }
  }

  lemma OrComm(a: nat, b: nat)
    ensures BitOr(a, b) == BitOr(b, a)
  {
  }

  lemma {:induction false} Pow2Values()
    ensures Pow(2, 1) == 2 && Pow(2, 2) == 4 && Pow(2, 3) == 8 && Pow(2, 4) == 16
    ensures Pow(2, 5) == 32 && Pow(2, 6) == 64 && Pow(2, 8) == 256
  {
    assert Pow(2, 1) == 2 && Pow(2, 2) == 4 && Pow(2, 3) == 8 && Pow(2, 4) == 16;
    assert Pow(2, 5) == 32 && Pow(2, 6) == 64 && Pow(2, 7) == 128 && Pow(2, 8) == 256;
  }

  lemma {:induction false} Pow2Large()
    ensures Pow(2, 16) == 0x1_0000 && Pow(2, 20) == 0x10_0000 && Pow(2, 32) == 0x1_0000_0000
  {
    Pow2Values();
    PowAdd(2, 8, 8);
    PowAdd(2, 16, 4);
    PowAdd(2, 16, 16);
  }

  lemma {:induction false} Pow2Mantissa()
    ensures Pow(2, 52) == 0x10_0000_0000_0000 && Pow(2, 53) == 0x20_0000_0000_0000
  {
    hide Pow;
    Pow2Large();
    PowAdd(2, 32, 20);
    PowAdd(2, 52, 1);
    PowOne(2);
  }

  /** Shifting a 32-bit word left by k keeps its low 32 - k bits; the high k bits are its right shift. */
  lemma {:induction false} ShiftSplit(w: nat, k: nat)
    requires w < 0x1_0000_0000 && k <= 32
    ensures Shl(w, k) == LowBits(w, 32 - k) * Pow(2, k)
  {
    hide Pow;
    var p, q := Pow(2, k), Pow(2, 32 - k);
    Pow2Complement(k);
    ShiftSplitArith(w, p, q, w / q, w % q);
  }

  lemma {:induction false} ShiftSplitArith(w: nat, p: nat, q: nat, h: nat, l: nat)
    requires p > 0 && q > 0 && p * q == 0x1_0000_0000 && w == h * q + l && l < q
    ensures (w * p) % 0x1_0000_0000 == l * p && (w * p) / 0x1_0000_0000 == h
  {
    assert w * p == h * (p * q) + l * p;
    MulLe(l + 1, q, p);
    assert (l + 1) * p == l * p + p;
    DivModUnique(w * p, 0x1_0000_0000, h, l * p);
  }

  /** The word (w << k | z) of a left-shift loop is the low half of w * 2^k + z, and w >> (32 - k) the high half. */
  lemma {:induction false} ShiftOr(w: nat, z: nat, k: nat)
    requires w < 0x1_0000_0000 && k <= 32 && z < Pow(2, k)
    ensures BitOr(Shl(w, k), z) == (w * Pow(2, k) + z) % 0x1_0000_0000
    ensures Shr(w, 32 - k) == (w * Pow(2, k) + z) / 0x1_0000_0000
    ensures Shr(w, 32 - k) < Pow(2, k)
  {
    hide Pow, BitOr;
    var p, q := Pow(2, k), Pow(2, 32 - k);
    ShiftSplit(w, k);
    Pow2Complement(k);
    OrDisjoint(w % q, z, k);
    ShiftOrArith(w, z, p, q, w / q, w % q);
  }

  lemma {:induction false} ShiftOrArith(w: nat, z: nat, p: nat, q: nat, h: nat, l: nat)
    requires p > 0 && q > 0 && p * q == 0x1_0000_0000 && w == h * q + l && l < q && z < p && w < p * q
    ensures (w * p + z) % 0x1_0000_0000 == l * p + z && (w * p + z) / 0x1_0000_0000 == h
    ensures h < p
  {
    assert w * p + z == h * (p * q) + (l * p + z);
    MulLe(l + 1, q, p);
    assert (l + 1) * p == l * p + p;
    DivModUnique(w * p + z, 0x1_0000_0000, h, l * p + z);
    MulCancelLt(h, p, q);
  }
}
