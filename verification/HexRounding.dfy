/** The rounding part of gethex in dtoa.c: a hexadecimal significand of any length to a binary64. */
module HexRounding {
  import opened Arith
  import opened Bits
  import opened Words
  import opened Bigints
  import opened Shifts
  import opened Compare
  import opened Doubles
  import opened Decimals

  /** How the bits shifted out compare with half a unit: none, below, exactly half, above. */
  function LostClass(low: nat, t: nat): (c: nat)
  {
    if low == 0 then 0 else if 2 * low < Pow(2, t) then 1 else if 2 * low == Pow(2, t) then 2 else 3
  }

  /** Bit k of a number held in words is bit k % 32 of word k / 32. */
  lemma {:induction false} BitAt(s: seq<Word>, k: nat)
    requires k / 32 < |s|
    ensures Shr(Val(s), k) % 2 == Shr(s[k / 32], k % 32) % 2
  {
    hide Val, Weight, Pow, Shr, LowBits;
    var n, j := k / 32, k % 32;
    var t := s[n..];
    assert s[..n] + t == s && t[..1] == [s[n]] && t[..1] + t[1..] == t;
    ValAppend(s[..n], t);
    ValBound(s[..n]);
    ValAppend(t[..1], t[1..]);
    ValOneWord(t[..1]);
    WeightNext(0);
    WeightZero();
    ShrLow(s[n], j);
    BitArith(Val(s), Weight(n), Val(s[..n]), Val(t), s[n], Shr(s[n], j), LowBits(s[n], j), k, Val(t[1..]));
  }

  lemma {:induction false} BitArith(v: nat, w: nat, low: nat, t: nat, s: nat, h: nat, r: nat, k: nat, u: nat)
    requires w == Weight(k / 32) && low < w && v == low + w * t && t == s + BASE * u
    requires s == Pow(2, k % 32) * h + r && r < Pow(2, k % 32)
    ensures Shr(v, k) % 2 == h % 2
  {
    hide Pow, Weight, Shr;
    var m := k % 32;
    var p, q := Pow(2, m), Pow(2, 32 - m);
    Pow2Complement(m);
    ShiftAmount(k);
    SpreadWord(w, low, t, s, h, r, p, q, u);
    LowUnique(v, k, h + q * u, low + w * r);
    PowAdd(2, 1, 31 - m);
    PowOne(2);
    EvenTerm(h, Pow(2, 31 - m) * u, q * u);
  }

  /** A word and the words above it, cut inside the word. */
  lemma {:induction false} SpreadWord(w: nat, low: nat, t: nat, s: nat, h: nat, r: nat, p: nat, q: nat, u: nat)
    requires low < w && t == s + BASE * u && s == p * h + r && r < p && p * q == BASE
    ensures low + w * t == w * p * (h + q * u) + (low + w * r) && low + w * r < w * p
  {
    Regrouped(p, q, u, h, r, t);
    Spread(w, p, h + q * u, r, t);
    MulLe(r + 1, p, w);
    assert (r + 1) * w == w * r + w;
  }

  lemma {:induction false} Regrouped(p: nat, q: nat, u: nat, h: nat, r: nat, t: nat)
    requires t == p * h + r + p * q * u
    ensures t == p * (h + q * u) + r
  {
    assert p * q * u == p * (q * u);
  }

  lemma {:induction false} Spread(w: nat, p: nat, x: nat, r: nat, t: nat)
    requires t == p * x + r
    ensures w * t == w * p * x + w * r
  {
    assert w * (p * x) == w * p * x;
  }

  lemma {:induction false} EvenTerm(h: nat, x: nat, y: nat)
    requires y == 2 * x
    ensures (h + y) % 2 == h % 2
  {
  }

  /** Shifting in two steps, and the bits each step drops. */
  lemma {:induction false} ShiftTwice(v: nat, a: nat, b: nat)
    ensures Shr(v, a + b) == Shr(Shr(v, a), b)
    ensures LowBits(v, a + b) == LowBits(Shr(v, a), b) * Pow(2, a) + LowBits(v, a)
  {
    hide Pow, Shr, LowBits;
    var h, q := Shr(v, a), Shr(Shr(v, a), b);
    var r, l := LowBits(h, b), LowBits(v, a);
    ShrLow(v, a);
    ShrLow(h, b);
    PowAdd(2, a, b);
    var pa, pb := Pow(2, a), Pow(2, b);
    assert pa * (pb * q + r) == pa * pb * q + r * pa;
    MulLe(r + 1, pb, pa);
    assert (r + 1) * pa == r * pa + pa;
    LowUnique(v, a + b, q, r * pa + l);
  }

  /** The lost bits from the half bit and the bits below it, some of which an earlier shift dropped. */
  lemma {:induction false} LostBits(v: nat, a: nat, b: nat)
    requires b > 0
    ensures var h := Shr(v, a);
            LostClass(LowBits(v, a + b), a + b) ==
            (if LowBits(v, a) != 0 || LowBits(h, b - 1) != 0 then 1 else 0) + (if Shr(h, b - 1) % 2 == 1 then 2 else 0)
  {
    hide Pow, Shr, LowBits, LostClass;
    var h, l := Shr(v, a), LowBits(v, a);
    var half, bit := LowBits(h, b - 1), Shr(h, b - 1);
    ShiftTwice(v, a, b);
    ShrLow(h, b - 1);
    ShrLow(h, b);
    ShrLow(bit, 1);
    ShiftTwice(h, b - 1, 1);
    PowOne(2);
    PowAdd(2, b - 1, 1);
    PowAdd(2, a, b);
    PowAdd(2, a, b - 1);
    OneBit(bit);
    LostArith(l, Pow(2, a), half, Pow(2, b - 1), LowBits(bit, 1));
    MulAssoc(2, Pow(2, a), Pow(2, b - 1));
    MulAssoc(Pow(2, a), 2, Pow(2, b - 1));
    ClassFrom(LowBits(v, a + b), a + b, Pow(2, a) * Pow(2, b - 1), LowBits(bit, 1), l != 0 || half != 0);
  }

  lemma {:induction false} ClassFrom(low: nat, t: nat, n: nat, bit: nat, any: bool)
    requires Pow(2, t) == 2 * n && low < 2 * n && bit <= 1
    requires (low == 0 <==> bit == 0 && !any) && (low < n <==> bit == 0) && (low == n <==> bit == 1 && !any)
    ensures LostClass(low, t) == (if any then 1 else 0) + (if bit == 1 then 2 else 0)
  {
    hide Pow;
  }

  lemma {:induction false} OneBit(v: nat)
    ensures LowBits(v, 1) == v % 2
  {
    PowOne(2);
  }

  lemma {:induction false} LostArith(l: nat, pa: nat, half: nat, ph: nat, bit: nat)
    requires l < pa && half < ph && bit <= 1
    ensures var low, n := (half + bit * ph) * pa + l, pa * ph;
      && 0 <= low < 2 * n
      && (low == 0 <==> bit == 0 && l == 0 && half == 0)
      && (low < n <==> bit == 0)
      && (low == n <==> bit == 1 && l == 0 && half == 0)
  {
    Distribute(half, bit * ph, pa);
    MulLe(half + 1, ph, pa);
    Distribute(half, 1, pa);
    if half > 0 {
      MulLe(1, half, pa);
    }
    if bit == 0 {
      assert bit * ph * pa == 0;
    } else {
      assert bit * ph * pa == pa * ph;
    }
  }

  lemma {:induction false} Distribute(a: nat, b: nat, c: nat)
    ensures (a + b) * c == a * c + b * c
  {
  }

  /** The test x[k >> 5] & 1 << (k & 31). */
  method BitSet(b: Bigint, k: nat) returns (on: bool)
    requires b.Valid() && k / 32 < b.wds
    ensures on <==> Shr(b.Value(), k) % 2 == 1
  {
    hide Val, Shr, Pow;
    BitAt(b.x[..b.wds], k);
    on := Shr(b.x[k / 32], k % 32) % 2 == 1;
  }

  /** The bits that shifting b right by n would lose, compared with half a unit. */
  method Lost(b: Bigint, n: nat) returns (lostbits: nat)
    requires b.Valid() && 0 < n && (n - 1) / 32 < b.wds
    ensures lostbits == LostClass(LowBits(b.Value(), n), n)
  {
    hide Val, Shr, Pow, LowBits, LostClass, Bigint.Valid, Bigint.Value;
    LostBits(b.Value(), 0, n);
    NothingShifted(b.Value());
    HalfAndBelow(b.Value(), n);
    lostbits := 0;
    var any := AnyOn(b, n);
    if any {
      lostbits := 1;
      var k := n - 1;
      var half := BitSet(b, k);
      if half {
        lostbits := 2;
        if k > 0 {
          any := AnyOn(b, k);
          if any {
            lostbits := 3;
          }
        } else {
          NoBits(b.Value());
        }
      }
    }
  }

  lemma {:induction false} NothingShifted(v: nat)
    ensures Shr(v, 0) == v && LowBits(v, 0) == 0
  {
    PowOne(2);
  }

  lemma {:induction false} HalfAndBelow(v: nat, n: nat)
    requires n > 0
    ensures LowBits(v, n) == 0 <==> LowBits(v, n - 1) == 0 && Shr(v, n - 1) % 2 == 0
  {
    hide Pow, Shr, LowBits;
    ShiftTwice(v, n - 1, 1);
    OneBit(Shr(v, n - 1));
    if Shr(v, n - 1) % 2 == 1 {
      assert 1 * Pow(2, n - 1) > 0;
    }
  }

  /** v with zeros appended up to 53 bits. */
  ghost function Widened(v: nat, n: nat): nat
  {
    v * Pow(2, Pos(53 - n))
  }

  /** A significand v of n bits scaled to exactly 53: the left shift that is needed, and the bits dropped. */
  ghost predicate Cut(v: nat, n: nat, m: nat, lostbits: nat)
  {
    var w, drop := Widened(v, n), Pos(n - 53);
    m == Shr(w, drop) && lostbits == LostClass(LowBits(w, drop), drop)
  }

  lemma {:induction false} FiftyThree(v: nat, n: nat)
    requires n > 0 && Pow(2, n - 1) <= v < Pow(2, n)
    ensures Pow(2, 52) <= Shr(Widened(v, n), Pos(n - 53)) < Pow(2, 53)
  {
    hide Pow, Shr;
    if n <= 53 {
      ShlRange(v, n - 1, 53 - n);
      NothingShifted(v * Pow(2, 53 - n));
    } else {
      PowOne(2);
      assert v * Pow(2, 0) == v;
      ShrRange(v, 52, n - 53);
    }
  }

  lemma {:induction false} ShlRange(v: nat, lo: nat, a: nat)
    requires Pow(2, lo) <= v < Pow(2, lo + 1)
    ensures Pow(2, lo + a) <= v * Pow(2, a) < Pow(2, lo + a + 1)
  {
    hide Pow;
    PowAdd(2, lo, a);
    PowAdd(2, lo + 1, a);
    MulLe(Pow(2, lo), v, Pow(2, a));
    MulLt(v, Pow(2, lo + 1), Pow(2, a));
  }

  lemma {:induction false} ShrRange(v: nat, lo: nat, a: nat)
    requires Pow(2, lo + a) <= v < Pow(2, lo + a + 1)
    ensures Pow(2, lo) <= Shr(v, a) < Pow(2, lo + 1)
  {
    hide Pow, Shr, LowBits;
    ShrLow(v, a);
    PowAdd(2, lo, a);
    PowAdd(2, lo + 1, a);
    Between(Shr(v, a), Pow(2, a), LowBits(v, a), Pow(2, lo), Pow(2, lo + 1));
  }

  lemma {:induction false} Between(m: nat, p: nat, low: nat, a: nat, b: nat)
    requires a * p <= m * p + low < b * p && low < p
    ensures a <= m < b
  {
    if m < a {
      MulLe(m + 1, a, p);
    }
    if m >= b {
      MulLe(b, m, p);
    }
  }

  /** Cutting or extending the significand to 53 bits. */
  method Normalize(b0: Bigint, e0: int) returns (b: Bigint, e: int, lostbits: nat, ghost n: nat)
    requires b0.Valid() && b0.Value() > 0
    modifies b0`wds, b0.x
    ensures b == b0 || (fresh(b) && fresh(b.x))
    ensures b.Valid() && Pow(2, 52) <= b.Value() < Pow(2, 53) && e == e0 + n - 53
    ensures n > 0 && Pow(2, n - 1) <= old(b0.Value()) < Pow(2, n) && Cut(old(b0.Value()), n, b.Value(), lostbits)
  {
    hide Val, Shr, Pow, LowBits, LostClass, Bigint.Value;
    b := b0;
    PositiveNumber(b);
    var bits := BitsOf(b);
    n := bits;
    e := e0;
    lostbits := 0;
    ghost var v := b.Value();
    FiftyThree(v, n);
    PowOne(2);
    NothingShifted(Widened(v, n));
    NoneLost(Widened(v, n));
    assert v * Pow(2, 0) == v;
    if bits > 53 {
      var drop := bits - 53;
      LongEnough(b, bits);
      lostbits := Lost(b, drop);
      RShift(b, drop);
      e := e + drop;
    } else if bits < 53 {
      b := LShift(b, 53 - bits);
      e := e - (53 - bits);
    }
  }

  lemma {:induction false} PositiveNumber(b: Bigint)
    requires b.Valid() && b.Value() > 0
    ensures b.wds > 0
  {
  }

  lemma {:induction false} NoneLost(w: nat)
    ensures LostClass(LowBits(w, 0), 0) == 0
  {
    PowOne(2);
  }

  /** A number of n bits has a word for each of them. */
  lemma {:induction false} LongEnough(b: Bigint, n: nat)
    requires b.Valid() && n > 0 && Pow(2, n - 1) <= b.Value()
    ensures n <= 32 * b.wds
  {
    hide Val, Pow, Weight;
    ValBound(b.x[..b.wds]);
    WeightIsPow2(b.wds);
    if 32 * b.wds < n {
      PowMono(2, 32 * b.wds, n - 1);
    }
  }

  datatype Rounding = RoundZero | RoundNear | RoundUp | RoundDown

  /** Is the truncated significand m raised, given how the lost bits compare with half a unit? */
  predicate Raised(rounding: Rounding, negative: bool, m: nat, lostbits: nat)
  {
    match rounding
    case RoundZero => false
    case RoundNear => lostbits == 3 || (lostbits == 2 && m % 2 == 1)
    case RoundUp => lostbits != 0 && !negative
    case RoundDown => lostbits != 0 && negative
  }

  /** v * 2^e as a multiple of 2^p, rounded. */
  ghost function RoundedAt(v: nat, e: int, p: int, rounding: Rounding, negative: bool): nat
  {
    var num, t := v * Pow(2, Pos(e - p)), Pos(p - e);
    var m := Shr(num, t);
    m + if Raised(rounding, negative, m, LostClass(LowBits(num, t), t)) then 1 else 0
  }

  /** Rounding to nearest here is rounding half to even. */
  lemma {:induction false} NearIsHalfEven(v: nat, e: int, p: int, negative: bool)
    ensures RoundedAt(v, e, p, RoundNear, negative) == RoundHalfEven(v * Pow(2, Pos(e - p)), Pow(2, Pos(p - e)))
  {
    hide Pow;
  }

  /** The other modes round the number, with its sign, towards zero, plus infinity and minus infinity. */
  lemma {:induction false} DirectedRounding(v: nat, e: int, p: int, rounding: Rounding, negative: bool)
    requires rounding != RoundNear
    ensures var num, den, r := v * Pow(2, Pos(e - p)), Pow(2, Pos(p - e)), RoundedAt(v, e, p, rounding, negative);
      if (rounding == RoundUp && !negative) || (rounding == RoundDown && negative) then
        num <= den * r < num + den
      else den * r <= num < den * r + den
  {
    hide Pow, Shr, LowBits;
    var num, t := v * Pow(2, Pos(e - p)), Pos(p - e);
    ShrLow(num, t);
    OneMore(Pow(2, t), Shr(num, t));
  }

  lemma {:induction false} OneMore(q: nat, m: nat)
    ensures q * (m + 1) == q * m + q
  {
  }

  /** Zeros appended before and dropped after the cut change nothing. */
  lemma {:induction false} CommonShift(v: nat, a: nat, t: nat)
    ensures var num, u := v * Pow(2, Pos(a - t)), Pos(t - a);
            && Shr(v * Pow(2, a), t) == Shr(num, u)
            && LostClass(LowBits(v * Pow(2, a), t), t) == LostClass(LowBits(num, u), u)
  {
    hide Pow, Shr, LowBits, LostClass;
    PowOne(2);
    assert v * Pow(2, 0) == v;
    if a <= t {
      FewerZeros(v, a, t);
    } else {
      MoreZeros(v, a, t);
    }
  }

  lemma {:induction false} FewerZeros(v: nat, a: nat, t: nat)
    requires a <= t
    ensures Shr(v * Pow(2, a), t) == Shr(v, t - a)
    ensures LostClass(LowBits(v * Pow(2, a), t), t) == LostClass(LowBits(v, t - a), t - a)
  {
    hide Pow, Shr, LowBits;
    var q, r, p, c := Shr(v, t - a), LowBits(v, t - a), Pow(2, t - a), Pow(2, a);
    ShrLow(v, t - a);
    PowAdd(2, t - a, a);
    SpreadOver(v, p, q, r, c, Pow(2, t));
    LowUnique(v * c, t, q, r * c);
    SameClass(r, p, c);
  }

  lemma {:induction false} SpreadOver(v: nat, p: nat, q: nat, r: nat, c: nat, pt: nat)
    requires v == p * q + r && r < p && c > 0 && pt == p * c
    ensures v * c == pt * q + r * c && r * c < pt
  {
    assert (p * q + r) * c == p * c * q + r * c;
    MulLt(r, p, c);
  }

  lemma {:induction false} MoreZeros(v: nat, a: nat, t: nat)
    requires t < a
    ensures Shr(v * Pow(2, a), t) == Shr(v * Pow(2, a - t), 0)
    ensures LostClass(LowBits(v * Pow(2, a), t), t) == 0 == LostClass(LowBits(v * Pow(2, a - t), 0), 0)
  {
    hide Pow, Shr, LowBits;
    PowAdd(2, a - t, t);
    var n := v * Pow(2, a - t);
    assert v * Pow(2, a) == Pow(2, t) * n + 0;
    LowUnique(v * Pow(2, a), t, n, 0);
    NothingShifted(n);
  }

  lemma {:induction false} SameClass(r: nat, p: nat, c: nat)
    requires c > 0 && r < p
    ensures r * c == 0 <==> r == 0
    ensures 2 * (r * c) < p * c <==> 2 * r < p
    ensures 2 * (r * c) == p * c <==> 2 * r == p
  {
    if r > 0 {
      MulLe(1, r, c);
    }
    assert 2 * (r * c) == 2 * r * c;
    if 2 * r < p {
      MulLt(2 * r, p, c);
    } else if 2 * r > p {
      MulLt(p, 2 * r, c);
    }
  }

  /** The second cut, for numbers below the normal range; bits already lost count as sticky. */
  method Denormalize(b: Bigint, lost0: nat, n: nat, ghost w: nat, ghost drop: nat) returns (lostbits: nat)
    requires b.Valid() && 0 < n && (n - 1) / 32 < b.wds
    requires b.Value() == Shr(w, drop) && lost0 == LostClass(LowBits(w, drop), drop)
    modifies b`wds, b.x
    ensures b.Valid() && b.Value() == Shr(w, drop + n) && lostbits == LostClass(LowBits(w, drop + n), drop + n)
  {
    hide Val, Shr, Pow, LowBits, Bigint.Valid, Bigint.Value;
    LostBits(w, drop, n);
    ShiftTwice(w, drop, n);
    NoBits(b.Value());
    var k := n - 1;
    lostbits := 0;
    if lost0 != 0 {
      lostbits := 1;
    } else if k > 0 {
      var any := AnyOn(b, k);
      lostbits := if any then 1 else 0;
    }
    var half := BitSet(b, k);
    if half {
      lostbits := lostbits + 2;
    }
    RShift(b, n);
  }

  const P52: nat := 0x10_0000_0000_0000
  const P53: nat := 0x20_0000_0000_0000

  /** Modes that answer a value above the doubles with the largest of them. */
  predicate ToLargest(rounding: Rounding, negative: bool)
  {
    match rounding
    case RoundZero => true
    case RoundNear => false
    case RoundUp => negative
    case RoundDown => !negative
  }

  /** The words of the finite double m * 2^p. */
  ghost predicate Stands(w0: Word, w1: Word, m: nat, p: int)
    requires p >= -1074
  {
    w0 < 0x7ff0_0000 && Double(w0, w1).Units() == m * Pow(2, p + 1074)
  }

  /** The two words answer for m * 2^p: from 2^1024 on infinity or the largest double, as the mode asks; otherwise the
      double of that value. */
  ghost predicate Answers(w0: Word, w1: Word, m: nat, p: int, rounding: Rounding, negative: bool)
    requires p >= -1074
  {
    if p < 971 || (p == 971 && m < P53) then Stands(w0, w1, m, p)
    else if ToLargest(rounding, negative) then w0 == 0x7fef_ffff && w1 == 0xffff_ffff
    else w0 == 0x7ff0_0000 && w1 == 0
  }

  /** The words stored for a significand of 53 bits: the exponent field takes twelve bits, and one above 2046 runs into
      the codes of infinity and NaN and into the sign. */
  function Packed(m: nat, e: int): (r: (nat, nat))
    requires P52 <= m < P53 && e >= -1074
  {
    ((e + 1075) % 0x1000 * 0x10_0000 + (m / BASE - 0x10_0000), m % BASE)
  }

  /** The words of a significand below 2^53. */
  lemma {:induction false} SignificandWords(b: Bigint)
    requires b.Valid() && b.Value() < P53
    ensures b.Value() >= BASE ==> b.wds == 2
    ensures b.wds <= 2 && (b.wds == 2 ==> b.Value() == b.x[0] + BASE * b.x[1])
    ensures b.x.Length > 0 && (b.wds < 2 ==> b.Value() == b.x[0])
  {
    hide Pow, Weight, Val;
    var s := b.x[..b.wds];
    if b.wds > 2 {
      ValTop(s);
      WeightMono(2, b.wds - 1);
      WeightNext(0);
      WeightNext(1);
      WeightZero();
    } else if b.wds == 2 {
      TwoWords(s);
    } else if b.wds == 1 {
      ValOneWord(s);
    } else {
      ValEmpty(s);
    }
  }

  /** x1 & ~0x100000 */
  function ClearHidden(x1: Word): (r: Word)
  {
    x1 - ((x1 / 0x10_0000) % 2) * 0x10_0000
  }

  /** (x1 & ~0x100000) | ((e + 1075) << 20) for a significand with its hidden bit set. */
  lemma {:induction false} PackNormal(x1: Word, f: nat)
    requires 0x10_0000 <= x1 < 0x20_0000
    ensures ClearHidden(x1) == x1 - 0x10_0000
    ensures BitOr(ClearHidden(x1), Shl(f, 20)) == (f % 0x1000) * 0x10_0000 + (x1 - 0x10_0000)
  {
    hide Pow, BitOr;
    Pow2Large();
    var l, h := x1 - 0x10_0000, f % 0x1000;
    assert Shl(f, 20) == h * 0x10_0000;
    OrComm(l, h * 0x10_0000);
    OrDisjoint(h, l, 20);
  }

  lemma {:induction false} NormalUnits(w0: Word, w1: Word, x1: Word, f: nat)
    requires 0x10_0000 <= x1 < 0x20_0000 && 1 <= f <= 2046
    requires w0 == (f % 0x1000) * 0x10_0000 + (x1 - 0x10_0000)
    ensures w0 < 0x7ff0_0000 && Double(w0, w1).Units() == (w1 + BASE * x1) * Pow(2, f as int - 1)
  {
    hide Pow;
    var d := Double(w0, w1);
    assert d.ExpField() == f;
    assert w0 % 0x10_0000 == x1 - 0x10_0000;
    assert d.Mantissa() == w1 + BASE * x1;
  }

  /** Storing a significand with its exponent in a double. */
  method PackWords(b: Bigint, e: int) returns (w0: Word, w1: Word)
    requires b.Valid() && P52 <= b.Value() < P53 && -1074 <= e <= 1023
    ensures (w0 as nat, w1 as nat) == Packed(b.Value(), e)
    ensures e <= 971 ==> Stands(w0, w1, b.Value(), e)
    ensures e > 971 ==> (w0 == 0x7ff0_0000 && w1 == 0 <==> e == 972 && b.Value() == P52) && w0 != 0x7fef_ffff
  {
    hide Pow, Val, Bigint.Value, BitOr, Shl, Stands, Packed, ClearHidden;
    SignificandWords(b);
    var f := e + 0x3ff + 52;
    TopWord(b.x[0], b.x[1], b.Value());
    PackNormal(b.x[1], f);
    PackedIs(b.x[0], b.x[1], b.Value(), e);
    w0 := BitOr(ClearHidden(b.x[1]), Shl(f, 20));
    w1 := b.x[0];
    if e <= 971 {
      NormalUnits(w0, w1, b.x[1], f);
      StandsFor(w0, w1, b.Value(), e);
    }
  }

  lemma {:induction false} TopWord(x0: Word, x1: Word, m: nat)
    requires m == x0 + BASE * x1 && P52 <= m < P53
    ensures 0x10_0000 <= x1 < 0x20_0000
  {
  }

  lemma {:induction false} StandsFor(w0: Word, w1: Word, m: nat, e: int)
    requires e >= -1074 && w0 < 0x7ff0_0000 && Double(w0, w1).Units() == m * Pow(2, e + 1074)
    ensures Stands(w0, w1, m, e)
  {
  }

  lemma {:induction false} PackedIs(x0: Word, x1: Word, m: nat, e: int)
    requires m == x0 + BASE * x1 && P52 <= m < P53 && -1074 <= e <= 1023
    ensures var w0 := (e + 1075) % 0x1000 * 0x10_0000 + (x1 - 0x10_0000);
            && Packed(m, e) == (w0, x0 as nat)
            && (e > 971 ==> (w0 == 0x7ff0_0000 && x0 == 0 <==> e == 972 && m == P52) && w0 != 0x7fef_ffff)
  {
    DivModUnique(m, BASE, x1, x0);
  }

  /** Storing a significand below the normal range; a carry into the hidden bit is masked away. */
  method PackDenormal(b: Bigint) returns (w0: Word, w1: Word)
    requires b.Valid() && b.Value() <= P52
    ensures Stands(w0, w1, b.Value(), -1074) <==> b.Value() != P52
  {
    hide Val, Bigint.Value;
    SignificandWords(b);
    PowOne(2);
    w0 := if b.wds > 1 then ClearHidden(b.x[1]) else 0;
    w1 := b.x[0];
    var d := Double(w0, w1);
    assert b.Value() < P52 ==> d.ExpField() == 0 && d.Mantissa() == b.Value() && w0 < 0x7ff0_0000;
    assert b.Value() == P52 ==> d.ExpField() == 0 && d.Mantissa() == 0;
  }

  lemma {:induction false} LeadingZeros(x: nat, h: nat)
    requires h < 32 && 0x8000_0000 <= x * Pow(2, h) < BASE
    ensures h < 11 <==> x >= 0x20_0000
  {
    hide Pow;
    Pow2Large();
    Pow2Values();
    PowAdd(2, 8, 3);
    PowAdd(2, 8, 2);
    if h < 11 {
      PowMono(2, h, 10);
      MulLe(Pow(2, h), 0x400, x);
    } else {
      PowMono(2, 11, h);
      MulLe(0x800, Pow(2, h), x);
    }
  }

  /** After increment a 53-bit significand overflows exactly when its top word reaches 2^21. */
  method Overflowed(b: Bigint, k: nat) returns (over: bool)
    requires b.Valid() && P52 <= b.Value() <= P53 && k == 2 && b.wds >= k
    ensures over <==> b.Value() == P53
  {
    hide Pow, Val, Weight;
    var s := b.x[..b.wds];
    if b.wds > 2 {
      ValTop(s);
      WeightMono(2, b.wds - 1);
      WeightNext(0);
      WeightNext(1);
      WeightZero();
    }
    TwoWords(s);
    var h := Hi0Bits(b.x[k - 1]);
    LeadingZeros(b.x[k - 1], h);
    over := b.wds > k || h < 32 - 21;
  }

  /** Raising the significand when the rounding direction asks for it; a carry out of 53 bits moves the exponent. */
  method RaiseSignificand(b0: Bigint, e0: int, lostbits: nat, rounding: Rounding, negative: bool, denorm: bool)
    returns (b: Bigint, e: int)
    requires b0.Valid() && b0.wds > 0 && lostbits <= 3 && (if denorm then b0.Value() < P52 else P52 <= b0.Value() < P53)
    modifies b0, b0.x
    ensures b == b0 || (fresh(b) && fresh(b.x))
    ensures b.Valid()
    ensures var m := old(b0.Value()) + (if Raised(rounding, negative, old(b0.Value()), lostbits) then 1 else 0);
            if denorm || m < P53 then b.Value() == m && e == e0 else b.Value() == P52 && e == e0 + 1
  {
    hide Pow, Val, Weight, Bigint.Value;
    b, e := b0, e0;
    if lostbits != 0 {
      var up := false;
      match rounding {
        case RoundZero =>
        case RoundNear =>
          LowBitOf(b);
          up := lostbits / 2 % 2 == 1 && (lostbits % 2 == 1 || b.x[0] % 2 == 1);
        case RoundUp => up := !negative;
        case RoundDown => up := negative;
      }
      if up {
        var k := b.wds;
        if !denorm {
          SignificandWords(b);
        }
        b := Increment(b);
        if !denorm {
          var over := Overflowed(b, k);
          if over {
            PowOne(2);
            RShift(b, 1);
            e := e + 1;
          }
        }
      }
    }
  }

  lemma {:induction false} LowBitOf(b: Bigint)
    requires b.Valid() && b.wds > 0
    ensures b.Value() % 2 == b.x[0] % 2
  {
    hide Val, Pow, Shr;
    NothingShifted(b.Value());
    NothingShifted(b.x[0]);
    BitAt(b.x[..b.wds], 0);
  }

  /** Below half the smallest double: the answer is that double or zero. */
  method TinyResult(b: Bigint, n: nat, rounding: Rounding, negative: bool) returns (w0: Word, w1: Word)
    requires b.Valid() && P52 <= b.Value() < P53 && n >= 53
    ensures w0 == 0 && w1 == match rounding
                             case RoundZero => 0
                             case RoundNear => if n == 53 && b.Value() != P52 then 1 else 0
                             case RoundUp => if negative then 0 else 1
                             case RoundDown => if negative then 1 else 0
  {
    hide Val, Bigint.Value;
    w0, w1 := 0, 0;
    match rounding {
      case RoundZero =>
      case RoundNear =>
        if n == 53 {
          var any := AnyOn(b, n - 1);
          Pow2Mantissa();
          Below52(b.Value());
          if any {
            w1 := 1;
          }
        }
      case RoundUp =>
        if !negative {
          w1 := 1;
        }
      case RoundDown =>
        if negative {
          w1 := 1;
        }
    }
  }

  lemma {:induction false} Below52(v: nat)
    requires P52 <= v < P53
    ensures LowBits(v, 52) != 0 <==> v != P52
  {
    hide Pow;
    Pow2Mantissa();
    LowUnique(v, 52, 1, v - P52);
  }

  /** When the code's answer is not the correctly rounded one: p is the exponent of the 53-bit significand top, and
      lostbits compares what lies below top with half a unit. */
  ghost predicate Misrounded(p: int, top: nat, lostbits: nat, rounding: Rounding, negative: bool)
  {
    || (p > 971 && ToLargest(rounding, negative))
    || (971 < p <= 1023 && !(p == 972 && top == P52 && !Raised(rounding, negative, top, lostbits))
                        && !(p == 1023 && top == P53 - 1 && Raised(rounding, negative, top, lostbits)))
    || (p == -1074 - 53 && top == P52 && lostbits != 0 && rounding == RoundNear)
    || (p == -1074 - 1 && top == P53 - 1 && (rounding == RoundNear || Raised(rounding, negative, top, 1)))
    || (p == -1074 - 1 && top == P53 - 2 && lostbits != 0 && Raised(rounding, negative, top, 1))
  }

  /** Rounding in one step at place p + n2 is rounding what the cuts left. */
  lemma {:induction false} RoundedFrom(v: nat, e: int, n: nat, n2: nat, rounding: Rounding, negative: bool)
    requires n > 0
    ensures var w, t := Widened(v, n), Pos(n - 53) + n2;
            var m := Shr(w, t);
            RoundedAt(v, e, e + n - 53 + n2, rounding, negative)
            == m + if Raised(rounding, negative, m, LostClass(LowBits(w, t), t)) then 1 else 0
  {
    hide Pow, Shr, LowBits, LostClass;
    CommonShift(v, Pos(53 - n), Pos(n - 53) + n2);
  }

  /** With 53 or more bits below the smallest double nothing is left but the lost bits. */
  lemma {:induction false} TinyLost(w: nat, drop: nat, n2: nat)
    requires P52 <= Shr(w, drop) < P53 && n2 >= 53
    ensures Shr(w, drop + n2) == 0
    ensures LostClass(LowBits(w, drop + n2), drop + n2) ==
            if n2 > 53 then 1 else if Shr(w, drop) == P52 && LowBits(w, drop) == 0 then 2 else 3
  {
    hide Pow, Shr, LowBits, LostClass;
    var top := Shr(w, drop);
    ShiftTwice(w, drop, n2);
    LostBits(w, drop, n2);
    Pow2Mantissa();
    PowMono(2, 53, n2);
    LowUnique(top, n2, 0, top);
    if n2 == 53 {
      LowUnique(top, 52, 1, top - P52);
    } else {
      PowMono(2, 53, n2 - 1);
      LowUnique(top, n2 - 1, 0, top);
    }
  }

  /** Below the normal range at least one bit of the 53 is cut off, so fewer than 2^52 remain. */
  lemma {:induction false} DenormalRange(w: nat, drop: nat, n2: nat)
    requires P52 <= Shr(w, drop) < P53 && 0 < n2 < 53
    ensures 0 < Shr(w, drop + n2) < P52
    ensures Shr(w, drop + n2) == P52 - 1 <==> n2 == 1 && Shr(w, drop) >= P53 - 2
    ensures LostClass(LowBits(w, drop + n2), drop + n2) / 2 == Shr(Shr(w, drop), n2 - 1) % 2
  {
    hide Pow, Shr, LowBits, LostClass;
    var top := Shr(w, drop);
    ShiftTwice(w, drop, n2);
    LostBits(w, drop, n2);
    Pow2Mantissa();
    ShrLow(top, n2);
    PowOne(2);
    PowAdd(2, 1, n2 - 1);
    MulLe(1, Pow(2, n2 - 1), Shr(top, n2));
    PowSplit(2, n2, 52);
    HalfOfTop(top, n2);
  }

  lemma {:induction false} QuotientPositive(v: nat, p: nat, q: nat, r: nat)
    requires v == p * q + r && r < p <= v
    ensures q > 0
  {
  }

  lemma {:induction false} HalfOfTop(top: nat, n: nat)
    requires P52 <= top < P53 && 0 < n < 53
    ensures 0 < Shr(top, n) < P52
    ensures Shr(top, n) == P52 - 1 <==> n == 1 && top >= P53 - 2
  {
    hide Pow, LowBits, Shr;
    ShrLow(top, n);
    Pow2Mantissa();
    PowOne(2);
    PowMono(2, n, 52);
    var q, r := Shr(top, n), LowBits(top, n);
    QuotientPositive(top, Pow(2, n), q, r);
    if n != 1 {
      PowMono(2, 2, n);
      PowAdd(2, 1, 1);
      MulLe(4, Pow(2, n), q);
    }
  }

  /** A number below the normal range whose place is 2^-1074: the second cut, rounding and storing. */
  method BelowNormal(b0: Bigint, lost0: nat, n2: nat, rounding: Rounding, negative: bool, ghost w: nat, ghost drop: nat)
    returns (w0: Word, w1: Word)
    requires b0.Valid() && P52 <= b0.Value() < P53 && 0 < n2 < 53
    requires b0.Value() == Shr(w, drop) && lost0 == LostClass(LowBits(w, drop), drop)
    modifies b0, b0.x
    ensures var m, c := Shr(w, drop + n2), LostClass(LowBits(w, drop + n2), drop + n2);
            var r := m + (if Raised(rounding, negative, m, c) then 1 else 0);
            Stands(w0, w1, r, -1074) <==> r != P52
  {
    hide Pow, Shr, LowBits, LostClass, Val, Bigint.Value;
    DenormalRange(w, drop, n2);
    SignificandWords(b0);
    var c := Denormalize(b0, lost0, n2, w, drop);
    AtMostThree(LowBits(w, drop + n2), drop + n2);
    PositiveNumber(b0);
    var b, e := RaiseSignificand(b0, -1074, c, rounding, negative, true);
    w0, w1 := PackDenormal(b);
  }

  lemma {:induction false} AtMostThree(low: nat, t: nat)
    ensures LostClass(low, t) <= 3
  {
  }

  /** A carry into the hidden bit of a subnormal needs all 53 bits set, just below the normal range. */
  lemma {:induction false} CarryIntoHidden(w: nat, drop: nat, n2: nat, rounding: Rounding, negative: bool,
      lostbits: nat)
    requires P52 <= Shr(w, drop) < P53 && 0 < n2 < 53 && lostbits == LostClass(LowBits(w, drop), drop)
    ensures var m, c := Shr(w, drop + n2), LostClass(LowBits(w, drop + n2), drop + n2);
            m + (if Raised(rounding, negative, m, c) then 1 else 0) == P52
            <==> Misrounded(-1074 - n2, Shr(w, drop), lostbits, rounding, negative)
  {
    hide Pow, Shr, LowBits, LostClass;
    DenormalRange(w, drop, n2);
    AtMostThree(LowBits(w, drop + n2), drop + n2);
    if n2 == 1 {
      NothingShifted(Shr(w, drop));
      LostBits(w, drop, 1);
      ZeroClass(LowBits(w, drop), drop);
    }
  }

  /** Numbers below the normal range. */
  method Subnormal(b: Bigint, lost0: nat, n2: nat, rounding: Rounding, negative: bool, ghost w: nat, ghost drop: nat)
    returns (w0: Word, w1: Word)
    requires b.Valid() && P52 <= b.Value() < P53 && 0 < n2
    requires b.Value() == Shr(w, drop) && lost0 == LostClass(LowBits(w, drop), drop)
    modifies b, b.x
    ensures var m, c := Shr(w, drop + n2), LostClass(LowBits(w, drop + n2), drop + n2);
            Stands(w0, w1, m + (if Raised(rounding, negative, m, c) then 1 else 0), -1074)
            <==> !Misrounded(-1074 - n2, old(b.Value()), lost0, rounding, negative)
  {
    hide Pow, Shr, LowBits, LostClass, Val, Bigint.Value;
    if n2 >= 53 {
      TinyLost(w, drop, n2);
      ZeroClass(LowBits(w, drop), drop);
      w0, w1 := TinyResult(b, n2, rounding, negative);
      TinyUnits(w1);
    } else {
      CarryIntoHidden(w, drop, n2, rounding, negative, lost0);
      hide Misrounded;
      w0, w1 := BelowNormal(b, lost0, n2, rounding, negative, w, drop);
    }
  }

  lemma {:induction false} ZeroClass(low: nat, t: nat)
    ensures LostClass(low, t) == 0 <==> low == 0
  {
  }

  /** What is stored above the largest exponent: nothing stops it up to exponent 1023. */
  function Overflowing(m: nat, p: int): (r: (nat, nat))
    requires P52 <= m <= P53 && p > 971
  {
    if p > 1023 || (p == 1023 && m == P53) then (0x7ff0_0000, 0)
    else if m == P53 then Packed(P52, p + 1)
    else Packed(m, p)
  }

  /** Numbers in the normal range, or above the largest exponent but not above Emax. */
  method Normal(b0: Bigint, e0: int, lost0: nat, rounding: Rounding, negative: bool) returns (w0: Word, w1: Word)
    requires b0.Valid() && P52 <= b0.Value() < P53 && -1074 <= e0 <= 1023 && lost0 <= 3
    modifies b0, b0.x
    ensures var m := old(b0.Value()) + (if Raised(rounding, negative, old(b0.Value()), lost0) then 1 else 0);
            && (Answers(w0, w1, m, e0, rounding, negative)
                <==> !Misrounded(e0, old(b0.Value()), lost0, rounding, negative))
            && (e0 > 971 ==> (w0 as nat, w1 as nat) == Overflowing(m, e0))
  {
    hide Pow, Val, Bigint.Value;
    PositiveNumber(b0);
    var b, e := RaiseSignificand(b0, e0, lost0, rounding, negative, false);
    if e > 1023 {
      w0, w1 := 0x7ff0_0000, 0;
    } else {
      w0, w1 := PackWords(b, e);
      CarriedUnits(e0);
    }
  }

  /** The rounding part of gethex: the two words are the correctly rounded double exactly when Misrounded does not hold;
      and what they are above the largest exponent. */
  method GetHexRound(b0: Bigint, e0: int, rounding: Rounding, negative: bool)
    returns (w0: Word, w1: Word, ghost n: nat, ghost top: nat, ghost lostbits: nat)
    requires b0.Valid() && b0.Value() > 0
    modifies b0, b0.x
    ensures n > 0 && Pow(2, n - 1) <= old(b0.Value()) < Pow(2, n) && Cut(old(b0.Value()), n, top, lostbits)
    ensures var p := e0 + n - 53;
            Answers(w0, w1, RoundedAt(old(b0.Value()), e0, Max(p, -1074), rounding, negative), Max(p, -1074),
                    rounding, negative)
            <==> !Misrounded(p, top, lostbits, rounding, negative)
    ensures P52 <= top < P53
    ensures var m := top + (if Raised(rounding, negative, top, lostbits) then 1 else 0);
            e0 + n - 53 > 971 ==> (w0 as nat, w1 as nat) == Overflowing(m, e0 + n - 53)
  {
    hide Pow, Shr, LowBits, LostClass, Val, Bigint.Value, RoundedAt, Raised;
    ghost var v := b0.Value();
    var b, e, lost0;
    b, e, lost0, n := Normalize(b0, e0);
    top, lostbits := b.Value(), lost0;
    Pow2Mantissa();
    ghost var w, drop := Widened(v, n), Pos(n - 53);
    AtMostThree(LowBits(w, drop), drop);
    if e > 1023 {
      w0, w1 := 0x7ff0_0000, 0;
    } else if e < -1074 {
      RoundedFrom(v, e0, n, -1074 - e, rounding, negative);
      hide Misrounded, Stands;
      w0, w1 := Subnormal(b, lost0, -1074 - e, rounding, negative, w, drop);
    } else {
      RoundedFrom(v, e0, n, 0, rounding, negative);
      hide Misrounded, Answers;
      w0, w1 := Normal(b, e, lost0, rounding, negative);
    }
  }

  lemma {:induction false} TinyUnits(w1: Word)
    requires w1 <= 1
    ensures Double(0, w1).Units() == w1 == w1 * Pow(2, 0)
  {
    PowOne(2);
    var d := Double(0, w1);
    assert d.ExpField() == 0 && d.Mantissa() == w1 && d.Scale() == -1074;
  }

  lemma {:induction false} CarriedUnits(p: int)
    requires p >= -1074
    ensures P52 * Pow(2, p + 1 + 1074) == P53 * Pow(2, p + 1074)
  {
    hide Pow;
    PowAdd(2, p + 1074, 1);
    PowOne(2);
  }

  /** A carry that is lost: (2^53 - 1) * 2^-1075 lies halfway between the largest subnormal double and 2^-1022 and
      should become the latter, the even one. */
  lemma {:induction false} MisroundedExample(negative: bool)
    ensures Pow(2, 52) <= P53 - 1 < Pow(2, 53) && Cut(P53 - 1, 53, P53 - 1, 0)
    ensures Misrounded(-1075, P53 - 1, 0, RoundNear, negative)
    ensures RoundedAt(P53 - 1, -1075, -1074, RoundNear, negative) == P52
  {
    hide RoundedAt, Raised;
    WholeCut(P53 - 1);
    NearIsHalfEven(P53 - 1, -1075, -1074, negative);
    assert Pow(2, 0) == 1;
    assert Pow(2, 1) == 2;
  }

  /** An overflow that is missed: (2^52 + 1) * 2^972 lies above every double and should become infinity; the words
      stored are those of a NaN. */
  lemma {:induction false} OverflowMissed(negative: bool)
    ensures Pow(2, 52) <= P52 + 1 < Pow(2, 53) && Cut(P52 + 1, 53, P52 + 1, 0)
    ensures Misrounded(972, P52 + 1, 0, RoundNear, negative)
    ensures Overflowing(P52 + 1, 972) == (0x7ff0_0000, 1)
  {
    WholeCut(P52 + 1);
  }

  /** A value just above half of the smallest double that should become it: (2^53 + 1) * 2^-1128. */
  lemma {:induction false} JustAboveHalf(negative: bool)
    ensures Pow(2, 53) <= P53 + 1 < Pow(2, 54) && Cut(P53 + 1, 54, P52, 2)
    ensures Misrounded(-1127, P52, 2, RoundNear, negative)
    ensures RoundedAt(P53 + 1, -1128, -1074, RoundNear, negative) == 1
  {
    Pow2Mantissa();
    PowNext(2, 54);
    PowOne(2);
    NearIsHalfEven(P53 + 1, -1128, -1074, negative);
    hide Pow, RoundedAt;
    assert (P53 + 1) * Pow(2, 0) == P53 + 1;
  }

  lemma {:induction false} WholeCut(v: nat)
    requires P52 <= v < P53
    ensures Pow(2, 52) <= v < Pow(2, 53) && Cut(v, 53, v, 0)
  {
    Pow2Mantissa();
    NothingShifted(v);
    NoneLost(v);
    PowOne(2);
    hide Pow, Shr, LowBits, LostClass;
    assert v * Pow(2, 0) == v;
  }
}
