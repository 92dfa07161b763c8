/** IEEE 754 binary64 numbers as two 32-bit words, and d2b of dtoa.c. */
module Doubles {
  import opened Arith
  import opened Bits
  import opened Words
  import opened Bigints
  import opened Shifts

  /** word0 (sign, exponent, high fraction) and word1 (low fraction). */
  datatype Double = Double(w0: Word, w1: Word) {

    function ExpField(): (r: nat)
    {
      (w0 / 0x10_0000) % 0x800
    }

    function Fraction(): (r: nat)
      ensures r < 0x10_0000_0000_0000
    {
      (w0 % 0x10_0000) * BASE + w1
    }

    /** Positive, finite and not zero: what is left when dtoa has handled sign, infinity, NaN and zero. */
    predicate Positive()
    {
      w0 < 0x7ff0_0000 && (w0 != 0 || w1 != 0)
    }

    /** The 53-bit significand with its hidden bit. */
    function Mantissa(): (r: nat)
      ensures r < 0x20_0000_0000_0000
    {
      if ExpField() == 0 then Fraction() else 0x10_0000_0000_0000 + Fraction()
    }

    /** The exponent of the unit in the last place. */
    function Scale(): (e: int)
      ensures -1074 <= e
    {
      (if ExpField() == 0 then 1 else ExpField()) - 1075
    }

    /** The unit in the last place, as a multiple of 2^-1074. */
    function Ulp(): (r: nat)
      ensures r > 0
    {
      Pow(2, Scale() + 1074)
    }

    /** A normalized power of two above the smallest one: the doubles below it lie twice as close. */
    predicate PowerOfTwo()
    {
      w1 == 0 && w0 % 0x10_0000 == 0 && (w0 / 0x20_0000) % 0x400 != 0
    }

    /** The number, and half the gaps to its neighbours, in quarter units (2^-1076). */
    function Quarters(): (r: nat)
    {
      4 * Units()
    }

    function HalfGapAbove(): (r: nat)
      ensures r > 0
    {
      2 * Ulp()
    }

    function HalfGapBelow(): (r: nat)
      ensures r > 0
    {
      if PowerOfTwo() then Ulp() else 2 * Ulp()
    }

    /** The number as a multiple of 2^-1074, the smallest positive double. */
    function Units(): (r: nat)
    {
      Mantissa() * Ulp()
    }
  }

  /** The binary64 encoding of IEEE 754: exponent e and fraction f stand for f * 2^-1074 when e is 0, and otherwise for
      (2^52 + f) * 2^(e - 1075). */
  lemma {:induction false} Binary64(e: nat, f: nat)
    requires e < 0x7ff && f < 0x10_0000_0000_0000
    ensures Double(e * 0x10_0000 + f / 0x1_0000_0000, f % 0x1_0000_0000).Units()
      == if e == 0 then f else (0x10_0000_0000_0000 + f) * Pow(2, e - 1)
  {
    var d := Double(e * 0x10_0000 + f / 0x1_0000_0000, f % 0x1_0000_0000);
    assert f / 0x1_0000_0000 < 0x10_0000;
    assert d.ExpField() == e && d.Fraction() == f;
    PowOne(2);
  }

  lemma {:induction false} PositiveUnits(d: Double)
    requires d.Positive()
    ensures d.Mantissa() > 0 && d.Units() > 0 && d.ExpField() == d.w0 / 0x10_0000 < 0x7ff
  {
    MulLe(1, d.Mantissa(), Pow(2, d.Scale() + 1074));
  }

  /** hi0bits: the number of leading zero bits; the masks of the source test for small words. */
  method Hi0Bits(x0: Word) returns (k: nat)
    ensures k <= 32 && (k == 32 <==> x0 == 0)
    ensures x0 > 0 ==> 0x8000_0000 <= x0 * Pow(2, k) < BASE
  {
    hide Pow;
    PowOne(2);
    Pow2Values();
    var x: int := x0;
    k := 0;
    if x < 0x1_0000 {
      Pow2Large();
      k := 16;
      x := x * 0x1_0000;
    }
    if x < 0x100_0000 {
      PowAdd(2, k, 8);
      k := k + 8;
      x := x * 0x100;
    }
    if x < 0x1000_0000 {
      PowAdd(2, k, 4);
      k := k + 4;
      x := x * 0x10;
    }
    if x < 0x4000_0000 {
      PowAdd(2, k, 2);
      k := k + 2;
      x := x * 4;
    }
    assert x == x0 * Pow(2, k);
    if x < 0x8000_0000 {
      PowAdd(2, k, 1);
      k := k + 1;
      if x < 0x4000_0000 {
        k := 32;
      }
    }
  }

  /** y0 is x with k zero bits appended. */
  ghost predicate ShiftedBy(y0: nat, x: nat, k: nat)
  {
    y0 == x * Pow(2, k)
  }

  lemma {:induction false} NotShifted(y: nat)
    ensures ShiftedBy(y, y, 0)
  {
  }

  /** One step of lo0bits: when the low half of x's low bits is zero, shift it out. */
  method HalfOut(x0: nat, k0: nat, j: nat, c: nat, ghost y0: nat) returns (x: nat, k: nat)
    requires ShiftedBy(y0, x0, k0) && c == Pow(2, j) && c > 1 && x0 % (c * c) != 0
    ensures ShiftedBy(y0, x, k) && k0 <= k <= k0 + j && x % c != 0 && x <= x0
  {
    hide Pow;
    x, k := x0, k0;
    if x % c == 0 {
      PowAdd(2, k, j);
      HalfOutArith(x, c, Pow(2, k));
      x, k := x / c, k + j;
    }
  }

  lemma {:induction false} HalfOutArith(x: nat, c: nat, p: nat)
    requires c > 1 && x % c == 0 && x % (c * c) != 0
    ensures x * p == (x / c) * (p * c) && (x / c) % c != 0 && x / c <= x
  {
    var q := x / c;
    assert x == q * c;
    assert q * c * p == q * (p * c);
    if q % c == 0 {
      assert x == (q / c) * c * c == (q / c) * (c * c);
      DivModUnique(x, c * c, q / c, 0);
    }
    MulLe(1, c, q);
  }

  lemma {:induction false} NotSixteenth(x: nat)
    requires x % 8 != 0
    ensures x % (4 * 4) != 0
  {
  }

  lemma {:induction false} BelowBase(x: nat)
    requires 0 < x < BASE
    ensures x % (0x1_0000 * 0x1_0000) != 0
  {
  }

  /** lo0bits: the number of trailing zero bits, which are shifted out of y. */
  method Lo0Bits(y0: Word) returns (k: nat, y: Word)
    requires y0 > 0
    ensures k < 32 && ShiftedBy(y0, y, k) && y % 2 == 1
  {
    hide ShiftedBy, Pow;
    NotShifted(y0);
    Pow2Values();
    Pow2Large();
    var x: nat := y0;
    k := 0;
    if x % 8 != 0 {
      if x % 2 != 1 {
        NotSixteenth(x);
        x, k := HalfOut(x, k, 2, 4, y0);
        x, k := HalfOut(x, k, 1, 2, y0);
      }
    } else {
      BelowBase(x);
      x, k := HalfOut(x, k, 16, 0x1_0000, y0);
      x, k := HalfOut(x, k, 8, 0x100, y0);
      x, k := HalfOut(x, k, 4, 0x10, y0);
      x, k := HalfOut(x, k, 2, 4, y0);
      x, k := HalfOut(x, k, 1, 2, y0);
    }
    y := x;
  }

  /** h is the number of leading zero bits of b's top word, and rv + p2 + 4 is h modulo 32. */
  ghost predicate ShiftFor(b: Bigint, p2: nat, rv: nat, h: nat)
    requires b.Valid() && b.wds > 0
    reads b, b.x
  {
    h < 32 && 0x8000_0000 <= b.x[b.wds - 1] * Pow(2, h) < BASE && (h as int - 4 - p2 - rv) % 32 == 0
  }

  /** dshift: the shift that leaves four leading zero bits in the top word of S << (p2 + shift). */
  method DShift(b: Bigint, p2: nat) returns (rv: nat)
    requires b.Valid() && b.Value() > 0
    ensures rv < 32 && b.wds > 0 && exists h: nat :: ShiftFor(b, p2, rv, h)
  {
    hide Val, Weight, Pow;
    TopUsed(b.x[..b.wds]);
    var h := Hi0Bits(b.x[b.wds - 1]);
    var r := h as int - 4;
    if p2 > 0 {
      r := r - p2;
    }
    rv := r % 32;
    assert ShiftFor(b, p2, rv, h);
  }

  /** What d2b returns: the significand without its trailing zero bits, its exponent and its bit length. */
  ghost predicate Decoded(d: Double, v: nat, e: int, bits: nat)
  {
    && e >= d.Scale() && d.Mantissa() == v * Pow(2, e - d.Scale())
    && bits > 0 && Pow(2, bits - 1) <= v < Pow(2, bits)
    && (d.ExpField() > 0 ==> bits + (e - d.Scale()) == 53)
  }

  lemma {:induction false} TwoWords(s: seq<Word>)
    requires |s| == 2
    ensures Val(s) == s[0] + BASE * s[1]
  {
    ValStep(s, 0);
    ValStep(s, 1);
    assert s[..2] == s && s[..0] == [];
    assert Weight(0) == 1;
  }

  /** The significand z * 2^32 + y, y not zero, without its k trailing zero bits, as d2b assembles it. */
  lemma {:induction false} LowWord(z: Word, y0: Word, y: Word, k: nat) returns (x0: Word)
    requires k < 32 && ShiftedBy(y0, y, k) && y % 2 == 1
    ensures x0 == (if k == 0 then y else BitOr(y, Shl(z, 32 - k)))
    ensures z * BASE + y0 == (x0 + BASE * Shr(z, k)) * Pow(2, k)
  {
    hide Pow, BitOr, Shl, Shr, LowBits;
    var p, q := Pow(2, k), Pow(2, 32 - k);
    Pow2Complement(k);
    MulCancelLt(y, q, p);
    x0 := DroppedWord(z, y, k);
    ShrLow(z, k);
    if k == 0 {
      PowOne(2);
    }
    LowWordArith(z, y0, y, p, q, Shr(z, k), LowBits(z, k), x0);
  }

  lemma {:induction false} LowWordArith(z: int, y0: int, y: int, p: int, q: int, h: int, l: int, x0: int)
    requires p * q == BASE && y0 == y * p && z == p * h + l && x0 == y + l * q
    ensures z * BASE + y0 == (x0 + BASE * h) * p
    ensures p == 1 && l == 0 ==> x0 == y
  {
    assert (p * h + l) * BASE == p * h * BASE + l * (p * q);
    assert (y + l * q + BASE * h) * p == y * p + l * (p * q) + BASE * h * p;
  }

  /** The two words d2b fills, from the high part z and the low part y of the significand. */
  method SplitMantissa(b: Bigint, z0: Word, d1: Word) returns (k: nat)
    requires b.x.Length == b.maxwds == Pow(2, b.k) == 2 && z0 < 0x20_0000 && (z0 > 0 || d1 > 0)
    modifies b`wds, b.x
    ensures b.Valid() && b.wds > 0 && b.Value() * Pow(2, k) == z0 * BASE + d1 && b.Value() > 0
  {
    hide Val, Weight, Pow, BitOr, Shl, Shr;
    if d1 != 0 {
      var y;
      k, y := Lo0Bits(d1);
      ghost var x0 := LowWord(z0, d1, y, k);
      var z := z0;
      b.x[0] := if k != 0 then BitOr(y, Shl(z, 32 - k)) else y;
      if k != 0 {
        z := Shr(z, k);
      } else {
        ShrZero(z);
      }
      b.x[1] := z;
      b.wds := if z != 0 then 2 else 1;
      WordsUsed(b.x[..2], b.wds);
      assert b.x[..b.wds] == b.x[..2][..b.wds];
      NotZero(b.Value(), Pow(2, k));
    } else {
      var y;
      k, y := Lo0Bits(z0);
      b.x[0] := y;
      b.wds := 1;
      ValOneWord(b.x[..1]);
      HighOnly(z0, y, k);
      k := k + 32;
    }
  }

  lemma {:induction false} ShrZero(z: nat)
    ensures Shr(z, 0) == z
  {
    PowOne(2);
  }

  lemma {:induction false} NotZero(v: nat, p: nat)
    requires v * p > 0
    ensures v > 0
  {
  }

  lemma {:induction false} HighOnly(z: nat, y: nat, k: nat)
    requires ShiftedBy(z, y, k)
    ensures y * Pow(2, k + 32) == z * BASE
  {
    hide Pow;
    Pow2Large();
    PowAdd(2, k, 32);
    MulAssoc(y, Pow(2, k), BASE);
  }

  lemma {:induction false} WordsUsed(s: seq<Word>, n: nat)
    requires |s| == 2 && n == (if s[1] != 0 then 2 else 1)
    ensures Val(s[..n]) == s[0] + BASE * s[1]
  {
    TwoWords(s);
    if n == 1 {
      ValOneWord(s[..1]);
    } else {
      assert s[..2] == s;
    }
  }

  /** A word with h leading zero bits on top of n words gives 32 * (n + 1) - h bits. */
  lemma {:induction false} BitLength(s: seq<Word>, h: nat)
    requires s != [] && h < 32 && 0x8000_0000 <= s[|s| - 1] * Pow(2, h) < BASE
    ensures Pow(2, 32 * |s| - h - 1) <= Val(s) < Pow(2, 32 * |s| - h)
  {
    hide Pow, Val, Weight;
    var n := |s| - 1;
    var t: nat, p := s[n], Pow(2, h);
    ValTop(s);
    WeightIsPow2(n);
    Pow2Complement(h);
    assert Pow(2, 32 - h) == 2 * Pow(2, 31 - h) by { PowAdd(2, 1, 31 - h); PowOne(2); }
    var q := Pow(2, 31 - h);
    assert p * (2 * q) == BASE;
    TopBits(t, p, q);
    PowAdd(2, 31 - h, 32 * n);
    PowAdd(2, 32 - h, 32 * n);
    MulLe(q, t, Weight(n));
    MulLe(t + 1, 2 * q, Weight(n));
  }

  lemma {:induction false} TopBits(t: nat, p: nat, q: nat)
    requires p > 0 && p * (2 * q) == BASE && 0x8000_0000 <= t * p < BASE
    ensures q <= t && t + 1 <= 2 * q
  {
    assert p * q == 0x8000_0000;
    MulCancelLe(q, t, p);
    MulCancelLt(t, 2 * q, p);
  }

  /** A 53-bit number with k zero bits removed has 53 - k bits. */
  lemma {:induction false} NormalBits(m: nat, v: nat, k: nat)
    requires v * Pow(2, k) == m && 0x10_0000_0000_0000 <= m < 0x20_0000_0000_0000
    ensures k <= 52 && Pow(2, 52 - k) <= v < Pow(2, 53 - k)
  {
    hide Pow;
    Pow2Large();
    PowAdd(2, 32, 20);
    PowAdd(2, 52, 1);
    PowOne(2);
    if k > 52 {
      PowMono(2, 53, k);
      if v > 0 {
        MulLe(1, v, Pow(2, k));
      }
    } else {
      PowAdd(2, 52 - k, k);
      PowAdd(2, 53 - k, k);
      MulCancelLe(Pow(2, 52 - k), v, Pow(2, k));
      MulCancelLt(v, Pow(2, 53 - k), Pow(2, k));
    }
  }

  /** The exponent field de and the high part z of the significand, as d2b reads them. */
  lemma {:induction false} Fields(d: Double, de: int, z: int)
    requires d.Positive() && de == (d.w0 % 0x8000_0000) / 0x10_0000
    requires z == (d.w0 % 0x10_0000) + (if de == 0 then 0 else 0x10_0000)
    ensures d.Mantissa() == z * BASE + d.w1 > 0 && 0 <= z < 0x20_0000
    ensures d.Scale() == (if de == 0 then 1 else de) - 1075 && (de == 0 <==> d.ExpField() == 0)
    ensures de != 0 ==> 0x10_0000_0000_0000 <= d.Mantissa() < 0x20_0000_0000_0000
  {
  }

  /** The bit length of a number: 32 bits a word, less the leading zeros of the top word. */
  method BitsOf(b: Bigint) returns (bits: nat)
    requires b.Valid() && b.Value() > 0
    ensures bits > 0 && Pow(2, bits - 1) <= b.Value() < Pow(2, bits)
  {
    hide Val, Weight, Pow;
    TopUsed(b.x[..b.wds]);
    var h := Hi0Bits(b.x[b.wds - 1]);
    BitLength(b.x[..b.wds], h);
    bits := 32 * b.wds - h;
  }

  lemma {:induction false} Powers1()
    ensures Pow(2, 1) == 2
  {
  }

  /** d2b: the significand of d as an odd number, its exponent, and its bit length. */
  method D2B(d: Double) returns (b: Bigint, e: int, bits: nat)
    requires d.Positive()
    ensures fresh(b) && fresh(b.x) && b.sign == 0 && b.wds > 0
    ensures b.Valid() && b.Value() > 0 && Decoded(d, b.Value(), e, bits)
  {
    hide Val, Weight, Pow, Double.Mantissa, Double.Units, Double.Fraction, Double.ExpField, Double.Scale;
    hide Double.Positive;
    b := new Bigint.Balloc(1);
    Powers1();
    var z := d.w0 % 0x10_0000;
    var de: int := (d.w0 % 0x8000_0000) / 0x10_0000;
    if de != 0 {
      z := z + 0x10_0000;
    }
    Fields(d, de, z);
    var k := SplitMantissa(b, z, d.w1);
    hide Bigint.Valid, Bigint.Value;
    if de != 0 {
      NormalBits(d.Mantissa(), b.Value(), k);
      e := de - 1023 - 52 + k;
      bits := 53 - k;
    } else {
      e := de - 1023 - 52 + 1 + k;
      bits := BitsOf(b);
    }
  }
}
