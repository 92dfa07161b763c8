/** The exact part of dtoa before any digit is produced: d / 10^k as a quotient b / S of big integers. */
module Scaling {
  import opened Arith
  import opened Bits
  import opened Words
  import opened Bigints
  import opened Multiply
  import opened PowersOfFive
  import opened Shifts
  import opened Compare
  import opened Doubles
  import opened Decimals

  /** a / s is x / 10^k. */
  ghost predicate Scaled(a: nat, s: nat, x: nat, k: int)
  {
    SameRatio(a, s, Num(x, k), Den(k))
  }

  /** k is floor(log10 d). */
  ghost predicate FloorLog10(d: Double, k: int)
  {
    Den(k) <= Num(d.Quarters(), k) < 10 * Den(k)
  }

  /** What dtoa's floating-point estimate is trusted for: exact, or one too large when k_check is set. */
  ghost predicate Estimated(d: Double, k: int, kCheck: bool)
  {
    FloorLog10(d, k) || (kCheck && FloorLog10(d, k - 1))
  }

  /** The exponents of two and five with which b, S and the half gap mlo start. */
  datatype Exponents = Exponents(b2: nat, s2: nat, b5: nat, s5: nat, m2: nat)

  /** The powers of two cancel to d / 10^k, and for mlo to the half gap below d over 10^k. */
  ghost predicate Balanced(x: Exponents, d: Double, be: int, k: int, leftright: bool)
  {
    && x.b2 - x.s2 == be - k
    && x.b5 == Pos(-k) && x.s5 == Pos(k)
    && (leftright ==> x.m2 - x.s2 == d.Scale() - k - if d.PowerOfTwo() then 2 else 1)
  }

  /** How dtoa chooses the exponents, cancels common powers of two, and allows for a power of two. */
  method ChooseExponents(d: Double, ghost v: nat, be: int, bbits: nat, k: int, leftright: bool) returns (x: Exponents)
    requires Decoded(d, v, be, bbits)
    ensures Balanced(x, d, be, k, leftright)
  {
    var b2, s2, b5, s5;
    var i := bbits + be - 1;
    var j := bbits - i - 1;
    if j >= 0 {
      b2 := 0;
      s2 := j;
    } else {
      b2 := -j;
      s2 := 0;
    }
    if k >= 0 {
      b5 := 0;
      s5 := k;
      s2 := s2 + k;
    } else {
      b2 := b2 - k;
      b5 := -k;
      s5 := 0;
    }
    var m2 := b2;
    if leftright {
      i := if d.ExpField() == 0 then be + (1023 + 52 - 1 + 1) else 1 + 53 - bbits;
      b2 := b2 + i;
      s2 := s2 + i;
    }
    if m2 > 0 && s2 > 0 {
      i := if m2 < s2 then m2 else s2;
      b2 := b2 - i;
      m2 := m2 - i;
      s2 := s2 - i;
    }
    if leftright && d.PowerOfTwo() {
      b2 := b2 + 1;
      s2 := s2 + 1;
    }
    x := Exponents(b2, s2, b5, s5, m2);
  }

  /** Multiplying by a power of five when there is one to multiply by. */
  method TimesFives(l: FiveList, b0: Bigint, e: nat) returns (b: Bigint)
    requires l.Valid() && b0.Valid() && l.Apart(b0) && b0.Value() > 0
    modifies l, l.Repr, b0, b0.x
    ensures b == b0 || (fresh(b) && fresh(b.x))
    ensures l.Apart(b) && b.Valid() && b.Value() == old(b0.Value()) * Pow(5, e) && b.Value() > 0
    ensures l.Valid() && old(l.Repr) <= l.Repr && fresh(l.Repr - old(l.Repr))
  {
    hide Pow, Val;
    b := b0;
    PowOne(5);
    DenPositive(b.Value(), Pow(5, e));
    if e > 0 {
      b := Pow5Mult(l, b, e);
    }
  }

  /** Two numbers that share no memory. */
  ghost predicate Apart(a: Bigint, b: Bigint)
  {
    a != b && a.x != b.x
  }

  /** The fives of the numerator: b * 5^b5 and, for the left-right modes, mhi = 5^b5. */
  method FivesAbove(l: FiveList, b0: Bigint, b5: nat, leftright: bool) returns (b: Bigint, mhi: Bigint)
    requires l.Valid() && l.Apart(b0) && b0.Valid() && b0.Value() > 0
    modifies l, l.Repr, b0, b0.x
    ensures b == b0 || (fresh(b) && fresh(b.x))
    ensures fresh(mhi) && fresh(mhi.x) && Apart(b, mhi) && b.Valid() && mhi.Valid()
    ensures b.Value() == old(b0.Value()) * Pow(5, b5)
    ensures mhi.Value() == if leftright then Pow(5, b5) else 1
    ensures l.Valid() && old(l.Repr) <= l.Repr && fresh(l.Repr - old(l.Repr)) && l.Apart(b) && l.Apart(mhi)
  {
    hide Pow, Val, Bigint.Valid, Bigint.Value, FiveList.Valid;
    b := b0;
    PowOne(5);
    mhi := I2B(1);
    if b5 > 0 {
      if leftright {
        mhi := TimesFives(l, mhi, b5);
        PositiveWords(mhi);
        b := Mult(mhi, b);
      } else {
        b := TimesFives(l, b, b5);
      }
    }
  }

  /** The fives: b * 5^b5 over S = 5^s5, and mhi. */
  method ScaleByFives(l: FiveList, b0: Bigint, x: Exponents, leftright: bool)
    returns (b: Bigint, S: Bigint, mhi: Bigint)
    requires l.Valid() && l.Apart(b0) && b0.Valid() && b0.Value() > 0
    modifies l, l.Repr, b0, b0.x
    ensures b == b0 || (fresh(b) && fresh(b.x))
    ensures fresh(S) && fresh(S.x) && fresh(mhi) && fresh(mhi.x) && Apart(b, S) && Apart(b, mhi) && Apart(S, mhi)
    ensures b.Valid() && S.Valid() && mhi.Valid()
    ensures b.Value() == old(b0.Value()) * Pow(5, x.b5) && S.Value() == Pow(5, x.s5)
    ensures mhi.Value() == if leftright then Pow(5, x.b5) else 1
    ensures l.Valid() && fresh(l.Repr - old(l.Repr)) && l.Apart(b) && l.Apart(S) && l.Apart(mhi)
  {
    hide Pow, Val, Bigint.Valid, Bigint.Value, FiveList.Valid;
    b, mhi := FivesAbove(l, b0, x.b5, leftright);
    S := I2B(1);
    S := TimesFives(l, S, x.s5);
  }

  lemma {:induction false} PositiveWords(b: Bigint)
    requires b.Valid() && b.Value() > 0
    ensures b.wds > 0
  {
  }

  /** b times 2^k, shifted only when k is not zero. */
  method ShiftUp(b0: Bigint, k: nat) returns (b: Bigint)
    requires b0.Valid() && b0.Value() > 0
    ensures b == b0 || (fresh(b) && fresh(b.x))
    ensures b.Valid() && b.Value() == b0.Value() * Pow(2, k) && b.Value() > 0
  {
    hide Pow, Val;
    b := b0;
    PowOne(2);
    DenPositive(b.Value(), Pow(2, k));
    if k > 0 {
      b := LShift(b, k);
    }
  }

  /** The top word has exactly four leading zero bits. */
  ghost predicate Normalized(S: Bigint)
    reads S, S.x
  {
    S.Valid() && S.wds > 0 && 0x800_0000 <= S.x[S.wds - 1] < 0x1000_0000
  }

  /** A number of 32 * q + 28 bits has q + 1 words and four leading zero bits. */
  lemma {:induction false} FourZeros(s: seq<Word>, q: nat)
    requires s != [] && s[|s| - 1] != 0
    requires Pow(2, 32 * q + 27) <= Val(s) < Pow(2, 32 * q + 28)
    ensures 0x800_0000 <= s[|s| - 1] < 0x1000_0000
  {
    hide Pow, Val, Weight;
    ValBound(s);
    ValTop(s);
    WeightIsPow2(q);
    PowAdd(2, 27, 32 * q);
    PowAdd(2, 28, 32 * q);
    Pow28();
    var n := |s| - 1;
    if n < q {
      WeightMono(n + 1, q);
      MulLe(1, 0x800_0000, Weight(q));
    } else if n > q {
      WeightMono(q + 1, n);
      WeightNext(q);
      MulLe(0x1000_0000, BASE, Weight(q));
    } else {
      MulCancelLt(s[n], 0x1000_0000, Weight(q));
      MulCancelLt(0x800_0000, s[n] as int + 1, Weight(q));
    }
  }

  lemma {:induction false} Pow28()
    ensures Pow(2, 27) == 0x800_0000 && Pow(2, 28) == 0x1000_0000
  {
    Pow2Values();
    Pow2Large();
    PowAdd(2, 20, 6);
    PowAdd(2, 26, 1);
    PowAdd(2, 27, 1);
  }

  /** The shift dshift asks for makes the bit length of S congruent to 28 modulo 32. */
  lemma {:induction false} ShiftedLength(s: seq<Word>, h: nat, p2: nat, rv: nat, t: seq<Word>)
    requires s != [] && h < 32 && 0x8000_0000 <= s[|s| - 1] * Pow(2, h) < BASE
    requires (h as int - 4 - p2 - rv) % 32 == 0
    requires t != [] && t[|t| - 1] != 0 && Val(t) == Val(s) * Pow(2, p2 + rv)
    ensures 0x800_0000 <= t[|t| - 1] < 0x1000_0000
  {
    hide Pow, Val, Weight;
    var n, e := 32 * |s| - h, p2 + rv;
    BitLength(s, h);
    PowAdd(2, n - 1, e);
    PowAdd(2, n, e);
    MulLe(Pow(2, n - 1), Val(s), Pow(2, e));
    MulLt(Val(s), Pow(2, n), Pow(2, e));
    var q := WholeWordsOf(|s|, h as int - 4 - e);
    FourZeros(t, q);
  }

  lemma {:induction false} WholeWordsOf(len: nat, x: int) returns (q: nat)
    requires x % 32 == 0 && x < 32 * len
    ensures 32 * len - x == 32 * q + 32
  {
    var m := x / 32;
    assert x == 32 * m;
    q := len - m - 1;
  }

  /** dshift and the shifts of b and S: afterwards the top word of S has four leading zero bits. */
  method ShiftBoth(b0: Bigint, S0: Bigint, b2: nat, s2: nat) returns (b: Bigint, S: Bigint, i: nat)
    requires b0.Valid() && S0.Valid() && b0.Value() > 0 && S0.Value() > 0 && Apart(b0, S0)
    ensures b == b0 || (fresh(b) && fresh(b.x))
    ensures S == S0 || (fresh(S) && fresh(S.x))
    ensures b.Valid() && b.Value() == b0.Value() * Pow(2, b2 + i) && b.Value() > 0
    ensures S.Valid() && Normalized(S) && S.Value() == S0.Value() * Pow(2, s2 + i) && S.Value() > 0
    ensures Apart(b, S)
  {
    hide Pow, Val, Bigint.Valid, Bigint.Value, ShiftFor, Normalized;
    i := DShift(S0, s2);
    ghost var h: nat :| ShiftFor(S0, s2, i, h);
    b := ShiftUp(b0, b2 + i);
    S := ShiftUp(S0, s2 + i);
    ShiftNormalizes(S0, S, s2, i, h);
  }

  lemma {:induction false} ShiftNormalizes(S0: Bigint, S: Bigint, s2: nat, i: nat, h: nat)
    requires S0.Valid() && S.Valid() && S0.Value() > 0 && S.Value() == S0.Value() * Pow(2, s2 + i) > 0
    requires S0.wds > 0 && ShiftFor(S0, s2, i, h)
    ensures Normalized(S)
  {
    hide Pow, Val;
    TopUsed(S0.x[..S0.wds]);
    TopUsed(S.x[..S.wds]);
    ShiftedLength(S0.x[..S0.wds], h, s2, i, S.x[..S.wds]);
  }

  /** The k_check of dtoa: an estimate one too large is noticed by b < S and corrected by a factor of ten. */
  method CheckEstimate(b0: Bigint, S: Bigint, mhi0: Bigint, d: Double, k0: int, kCheck: bool, leftright: bool)
    returns (b: Bigint, mhi: Bigint, k: int)
    requires b0.Valid() && S.Valid() && mhi0.Valid() && b0.Value() > 0 && S.Value() > 0 && mhi0.Value() > 0
    requires Apart(b0, S) && Apart(b0, mhi0) && Apart(S, mhi0)
    requires Estimated(d, k0, kCheck) && Scaled(b0.Value(), S.Value(), d.Quarters(), k0)
    modifies b0, b0.x, mhi0, mhi0.x
    ensures b == b0 || (fresh(b) && fresh(b.x))
    ensures mhi == mhi0 || (fresh(mhi) && fresh(mhi.x))
    ensures b.Valid() && mhi.Valid() && Apart(b, mhi)
    ensures FloorLog10(d, k) && k == k0 - (if FloorLog10(d, k0) then 0 else 1)
    ensures S.Value() <= b.Value() < 10 * S.Value()
    ensures Scaled(b.Value(), S.Value(), d.Quarters(), k)
    ensures mhi.Value() == old(mhi0.Value()) * (if leftright && k < k0 then 10 else 1) && mhi.Value() > 0
  {
    hide Pow, Val, Bigint.Valid, Bigint.Value, SameRatio, FloorLog10, Num, Den;
    b, mhi, k := b0, mhi0, k0;
    PositiveWords(b);
    PositiveWords(S);
    FloorMeans(b.Value(), S.Value(), d, k);
    if kCheck {
      var c := Cmp(b, S);
      if c < 0 {
        k := k - 1;
        ShiftRatio(b.Value(), S.Value(), d.Quarters(), k0);
        b := MultAdd(b, 10, 0);
        if leftright {
          mhi := MultAdd(mhi, 10, 0);
        }
        FloorMeans(b.Value(), S.Value(), d, k);
      }
    }
  }

  /** b / S == d / 10^k lies in [1, 10) exactly when k is floor(log10 d); one step lower, in [1/10, 1). */
  lemma {:induction false} FloorMeans(b: nat, s: nat, d: Double, k: int)
    requires s > 0 && SameRatio(b, s, Num(d.Quarters(), k), Den(k))
    ensures FloorLog10(d, k) <==> s <= b < 10 * s
    ensures FloorLog10(d, k - 1) ==> b < s <= 10 * b && !FloorLog10(d, k)
  {
    hide Num, Den;
    var n, m := Num(d.Quarters(), k), Den(k);
    RatioOrder(b, s, n, m);
    TenTimes(d.Quarters(), k);
    if FloorLog10(d, k - 1) {
      ShiftRatio(b, s, d.Quarters(), k);
      RatioOrder(10 * b, s, Num(d.Quarters(), k - 1), Den(k - 1));
    }
  }

  lemma {:induction false} RatioOrder(b: nat, s: nat, n: nat, m: nat)
    requires s > 0 && m > 0 && SameRatio(b, s, n, m)
    ensures s <= b <==> m <= n
    ensures b < 10 * s <==> n < 10 * m
  {
    CrossOrder(b, s, n, m);
    assert b * (10 * m) == 10 * s * n;
    CrossOrder(b, 10 * s, n, 10 * m);
  }

  /** a / b and c / d are on the same side of one. */
  lemma {:induction false} CrossOrder(b: nat, s: nat, n: nat, m: nat)
    requires s > 0 && m > 0 && b * m == s * n
    ensures s <= b <==> m <= n
  {
    if s <= b {
      MulLe(s, b, m);
      MulCancelLe(m, n, s);
    } else {
      MulLt(b, s, m);
      MulCancelLt(n, m, s);
    }
  }

  lemma {:induction false} DecodedQuarters(d: Double, v: nat, be: int, bits: nat)
    requires Decoded(d, v, be, bits)
    ensures be + 1076 >= 0 && d.Quarters() == v * Pow(2, be + 1076)
  {
    hide Pow, Double.Mantissa;
    Pow2Values();
    var h, g := be - d.Scale(), d.Scale() + 1074;
    PowAdd(2, h, g);
    PowAdd(2, h + g, 2);
    assert be + 1076 == h + g + 2;
    QuartersArith(v, Pow(2, h), Pow(2, g));
  }

  lemma {:induction false} QuartersArith(v: nat, h: nat, g: nat)
    ensures 4 * (v * h * g) == v * (h * g * 4)
  {
  }

  /** b and S as the shifts left them are d / 10^k. */
  lemma {:induction false} NumeratorScaled(d: Double, v: nat, be: int, bits: nat, x: Exponents, k: int, lr: bool,
      i: nat)
    requires Decoded(d, v, be, bits) && Balanced(x, d, be, k, lr)
    ensures Scaled(v * Pow(5, x.b5) * Pow(2, x.b2 + i), Pow(5, x.s5) * Pow(2, x.s2 + i), d.Quarters(), k)
  {
    hide Pow, SameRatio, Num, Den, Decoded, Double.Quarters;
    DecodedQuarters(d, v, be, bits);
    ScaledRatio(v, x.b2 + i, x.s2 + i, be + 1076, k);
  }

  /** mlo as the shifts leave it is half the gap below d, over 10^k. */
  lemma {:induction false} GapScaled(d: Double, be: int, x: Exponents, k: int, i: nat)
    requires Balanced(x, d, be, k, true)
    ensures Scaled(Pow(5, x.b5) * Pow(2, x.m2 + i), Pow(5, x.s5) * Pow(2, x.s2 + i), d.HalfGapBelow(), k)
  {
    hide Pow, SameRatio, Num, Den;
    var f := d.Scale() + (if d.PowerOfTwo() then 1074 else 1075);
    PowAdd(2, d.Scale() + 1074, 1);
    PowOne(2);
    assert Pow(2, f) == d.HalfGapBelow();
    ScaledRatio(1, x.m2 + i, x.s2 + i, f, k);
    assert 1 * Pow(5, x.b5) == Pow(5, x.b5) && 1 * Pow(2, f) == Pow(2, f);
  }

  /** d / 10^k as b / S, with S normalized; mhi and m2 make half the gap below d. */
  method Quotient(l: FiveList, d: Double, k: int, leftright: bool) returns (b: Bigint, S: Bigint, mhi: Bigint, m2: nat)
    requires l.Valid() && d.Positive()
    modifies l, l.Repr
    ensures fresh(b) && fresh(b.x) && fresh(S) && fresh(S.x) && fresh(mhi) && fresh(mhi.x)
    ensures Apart(b, S) && Apart(b, mhi) && Apart(S, mhi)
    ensures b.Valid() && S.Valid() && Normalized(S) && mhi.Valid()
    ensures b.Value() > 0 && S.Value() > 0 && mhi.Value() > 0
    ensures Scaled(b.Value(), S.Value(), d.Quarters(), k)
    ensures leftright ==> Scaled(mhi.Value() * Pow(2, m2), S.Value(), d.HalfGapBelow(), k)
    ensures l.Valid() && fresh(l.Repr - old(l.Repr)) && l.Apart(b) && l.Apart(S) && l.Apart(mhi)
  {
    hide Pow, Val, Bigint.Valid, Bigint.Value, Scaled, Decoded, Normalized, FiveList.Valid, Balanced;
    hide Double.Quarters, Double.HalfGapBelow, Double.Positive;
    var v, be, bits := D2B(d);
    ghost var v0 := v.Value();
    var x := ChooseExponents(d, v0, be, bits, k, leftright);
    b, S, mhi := ScaleByFives(l, v, x, leftright);
    var i;
    b, S, i := ShiftBoth(b, S, x.b2, x.s2);
    m2 := x.m2 + i;
    NumeratorScaled(d, v0, be, bits, x, k, leftright, i);
    if leftright {
      GapScaled(d, be, x, k, i);
    }
  }

  /** Everything up to the k_check: b / S == d / 10^k in [1, 10). */
  method Scale(l: FiveList, d: Double, k0: int, kCheck: bool, leftright: bool)
    returns (b: Bigint, S: Bigint, mhi: Bigint, k: int, m2: nat)
    requires l.Valid() && d.Positive() && Estimated(d, k0, kCheck)
    modifies l, l.Repr
    ensures fresh(b) && fresh(b.x) && fresh(S) && fresh(S.x) && fresh(mhi) && fresh(mhi.x)
    ensures Apart(b, S) && Apart(b, mhi) && Apart(S, mhi)
    ensures b.Valid() && S.Valid() && Normalized(S) && mhi.Valid() && mhi.Value() > 0
    ensures 0 < S.Value() <= b.Value() < 10 * S.Value()
    ensures FloorLog10(d, k) && k == k0 - (if FloorLog10(d, k0) then 0 else 1)
    ensures Scaled(b.Value(), S.Value(), d.Quarters(), k)
    ensures leftright ==> Scaled(mhi.Value() * Pow(2, m2), S.Value(), d.HalfGapBelow(), k)
    ensures l.Valid() && fresh(l.Repr - old(l.Repr)) && l.Apart(b) && l.Apart(S) && l.Apart(mhi)
  {
    hide Pow, Val, Bigint.Valid, Bigint.Value, Scaled, FloorLog10, Estimated, Normalized, FiveList.Valid;
    hide Double.Quarters, Double.HalfGapBelow, Double.Positive;
    b, S, mhi, m2 := Quotient(l, d, k0, leftright);
    ghost var m := mhi.Value();
    b, mhi, k := CheckEstimate(b, S, mhi, d, k0, kCheck, leftright);
    if leftright && k < k0 {
      ShiftScaled(m, Pow(2, m2), S.Value(), d.HalfGapBelow(), k0);
    }
  }

  lemma {:induction false} ShiftScaled(m: nat, p: nat, s: nat, x: nat, k: int)
    requires Scaled(m * p, s, x, k)
    ensures Scaled(m * 10 * p, s, x, k - 1)
  {
    hide Num, Den, SameRatio;
    ShiftRatio(m * p, s, x, k);
    assert 10 * (m * p) == m * 10 * p;
  }
}
