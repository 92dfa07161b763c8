/** fpconv_g_fmt from the bits of the double to the text: dtoa's digits laid out denote the correctly rounded decimal.
    */
module PrintDouble {
  import opened Arith
  import opened Bits
  import opened Bytes
  import opened PowersOfFive
  import opened Doubles
  import opened Decimals
  import opened Scaling
  import opened FixedDigits
  import opened GFmt

  // ---- the decimal exponents of doubles ----

  lemma {:induction false} EightBelowTen(n: nat)
    ensures Pow(2, 3 * n) <= Pow(10, n)
  {
    if n > 0 {
      EightBelowTen(n - 1);
      PowAdd(2, 3, 3 * (n - 1));
      assert Pow(2, 3) == 8;
      MulLe(Pow(2, 3 * (n - 1)), Pow(10, n - 1), 8);
    }
  }

  /** A power of ten below a power of two. */
  lemma {:induction false} TenBelowTwo(n: nat, m: nat)
    requires Pow(10, n) < Pow(2, m)
    ensures 3 * n < m
  {
    EightBelowTen(n);
    if m <= 3 * n {
      PowMono(2, m, 3 * n);
    }
  }

  lemma {:induction false} Below(a: nat, b: nat, c: nat, e: nat)
    requires a < c && b <= e && b > 0
    ensures 4 * (a * b) < 4 * (c * e) && a * b >= a
  {
    MulLt(a, c, b);
    MulLe(b, e, c);
    MulLe(1, b, a);
  }

  lemma {:induction false} QuartersRange(d: Double)
    requires d.Positive()
    ensures 1 <= d.Quarters() < Pow(2, 2100)
  {
    hide Pow;
    assert d.Mantissa() > 0 && d.Scale() <= 971;
    Pow2Mantissa();
    PowMono(2, d.Scale() + 1074, 2045);
    Below(d.Mantissa(), d.Ulp(), Pow(2, 53), Pow(2, 2045));
    PowAdd(2, 53, 2045);
    PowAdd(2, 2, 2098);
    FourIs();
  }

  lemma {:induction false} FourIs()
    ensures Pow(2, 2) == 4
  {
    assert Pow(2, 1) == 2;
  }

  /** The decimal exponent of a double. */
  lemma {:induction false} FloorRange(d: Double, k: int)
    requires d.Positive() && FloorLog10(d, k)
    ensures -360 < k < 342
  {
    hide Pow, Double.Quarters;
    QuartersRange(d);
    PowOne(10);
    var q := d.Quarters();
    if k > 0 {
      assert Num(q, k) == q * 1;
      PowAdd(2, 1076, 1024);
      if Pow(10, k) >= Pow(2, 1024) {
        MulLe(Pow(2, 1024), Pow(10, k), Pow(2, 1076));
      }
      TenBelowTwo(k, 1024);
    } else {
      assert Den(k) == Pow(2, 1076) * 1;
      MulLe(1, q, Pow(10, -k));
      PowAdd(2, 4, 1076);
      SixteenIs();
      TenBelowTwo(-k, 1080);
    }
  }

  lemma {:induction false} SixteenIs()
    ensures Pow(2, 4) == 16
  {
    assert Pow(2, 2) == 4;
  }

  // ---- the size of the rounded decimal ----

  /** m places further down the number is 10^m times as large. */
  lemma {:induction false} PlacesDown(x: nat, k: int, m: nat)
    requires Den(k) <= Num(x, k) < 10 * Den(k)
    ensures Pow(10, m) * Den(k - m) <= Num(x, k - m) < Pow(10, m + 1) * Den(k - m)
  {
    hide Num, Den;
    assert Pow(10, m + 1) == 10 * Pow(10, m);
    if m == 0 {
      PowOne(10);
    } else {
      PlacesDown(x, k, m - 1);
      assert Pow(10, m) == 10 * Pow(10, m - 1);
      TenTimes(x, k - m + 1);
      var e, f := Den(k - m + 1), Den(k - m);
      if k - m + 1 > 0 {
        Ten(Pow(10, m - 1), f);
        Ten(Pow(10, m), f);
      } else {
        Ten(Pow(10, m - 1), e);
        Ten(Pow(10, m), e);
      }
    }
  }

  lemma {:induction false} Ten(p: nat, e: nat)
    ensures p * (10 * e) == 10 * p * e && 10 * (p * e) == 10 * p * e
  {
  }

  lemma {:induction false} RoundBetween(p: nat, q: nat, a: nat, b: nat)
    requires q > 0 && a * q <= p < b * q
    ensures a <= RoundHalfEven(p, q) <= b
  {
    var f, rest := p / q, p % q;
    assert p == f * q + rest;
    if f < a {
      MulLe(f + 1, a, q);
    }
    if f >= b {
      MulLe(b, f, q);
    }
  }

  /** n significant digits. */
  lemma {:induction false} RoundedSize(d: Double, k: int, n: nat)
    requires FloorLog10(d, k) && n >= 1
    ensures Pow(10, n - 1) <= Rounded(d, k + 1 - n) <= Pow(10, n)
  {
    hide Pow, Num, Den, RoundHalfEven, Double.Quarters;
    PlacesDown(d.Quarters(), k, n - 1);
    RoundBetween(Num(d.Quarters(), k + 1 - n), Den(k + 1 - n), Pow(10, n - 1), Pow(10, n));
  }

  lemma {:induction false} DigitsSize(s: seq<Digit>)
    requires s != [] && s[0] != 0
    ensures Pow(10, |s| - 1) <= DigitsVal(s) < Pow(10, |s|)
  {
    if |s| == 1 {
      assert s[..0] == [];
      PowOne(10);
    } else {
      var front := s[..|s| - 1];
      assert front[0] == s[0];
      DigitsSize(front);
      assert Pow(10, |s|) == 10 * Pow(10, |s| - 1) && Pow(10, |s| - 1) == 10 * Pow(10, |s| - 2);
    }
  }

  lemma {:induction false} PowerOrder(a: nat, b: nat)
    ensures Pow(10, a) <= Pow(10, b) ==> a <= b
    ensures Pow(10, a) < Pow(10, b) ==> a < b
  {
    if b < a {
      PowStrict(10, b, a);
    }
  }

  /** The point is right after the first digit or, when the rounding carried, one place further. */
  lemma {:induction false} PointRange(d: Double, k: int, n: nat, s: seq<Digit>, decpt: int)
    requires FloorLog10(d, k) && n >= 1 && s != [] && NoTrailingZero(s)
    requires Denotes(s, decpt - 1, Rounded(d, k + 1 - n), k + 1 - n)
    ensures k + 1 <= decpt <= k + 2
  {
    hide Pow, DigitsVal, Rounded, FloorLog10;
    var r, m := Rounded(d, k + 1 - n), decpt - |s| - (k + 1 - n);
    RoundedSize(d, k, n);
    DigitsSize(s);
    MulLe(Pow(10, |s| - 1), DigitsVal(s), Pow(10, m));
    MulLt(DigitsVal(s), Pow(10, |s|), Pow(10, m));
    PowAdd(10, |s| - 1, m);
    PowAdd(10, |s|, m);
    PowerOrder(|s| - 1 + m, n);
    PowerOrder(n - 1, |s| + m);
  }

  // ---- the printer ----

  /** The same number with its digits shifted to another place. */
  lemma {:induction false} SameShifted(m: nat, e: int, n: nat, f: int, p: int, v: nat)
    requires SameNumber(m, e, n, f) && f >= p && n * Pow(10, f - p) == v
    ensures SameNumber(m, e, v, p)
  {
    hide Pow;
    PowOne(10);
    if e >= f {
      PowAdd(10, e - f, f - p);
      MulAssoc(m, Pow(10, e - f), Pow(10, f - p));
    } else if e >= p {
      PowAdd(10, f - e, e - p);
      MulAssoc(n, Pow(10, f - e), Pow(10, e - p));
    } else {
      PowAdd(10, f - p, p - e);
      MulAssoc(n, Pow(10, f - p), Pow(10, p - e));
    }
  }

  /** fpconv_g_fmt on a positive finite double, on the exact path of dtoa: the text, read as a decimal number, is the
      double rounded to precision significant digits, ties to even; it fits the buffer with its terminator. */
  method PrintPositive(l: FiveList, d: Double, k0: int, kCheck: bool, b: array<Byte>, precision: nat)
    returns (len: nat, ghost place: int)
    requires l.Valid() && d.Positive() && Estimated(d, k0, kCheck)
    requires b.Length == 32 && 1 <= precision <= 14
    modifies l, l.Repr, b
    ensures exists k :: FloorLog10(d, k) && place == k + 1 - precision
    ensures len < b.Length && b[len] == 0 && Printable(b[..len]) && ReadText(b[..len]).Some?
    ensures var r := ReadText(b[..len]).value; !r.neg && SameNumber(r.mantissa, r.exponent, Rounded(d, place), place)
  {
    hide FloorLog10, Estimated, Rounded, FiveList.Valid, DigitsVal, SameNumber, Layout, ReadText;
    var s, decpt;
    s, decpt, place := DtoaFixed(l, d, 2, precision, k0, kCheck);
    ghost var k :| FloorLog10(d, k) && place == k + 1 - precision;
    FloorRange(d, k);
    PointRange(d, k, precision, s, decpt);
    LayoutFits(s, decpt, precision);
    len := FpconvGFmt(b, false, Finite(s, decpt), precision);
    assert b[..len] == NumberText(false, s, decpt, precision);
    PrintedMeans(s, decpt, precision, false);
    ghost var r := ReadText(b[..len]).value;
    SameShifted(r.mantissa, r.exponent, DigitsVal(s), decpt - |s|, place, Rounded(d, place));
  }
}
