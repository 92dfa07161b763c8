/** Which decimals read back as a double: the interval between the midpoints to its neighbours. */
module ReadBack {
  import opened Arith
  import opened Doubles
  import opened Decimals

  /** The midpoints to the neighbours, in quarter units. */
  ghost function Low(d: Double): nat
  {
    Pos(d.Quarters() - d.HalfGapBelow())
  }

  ghost function High(d: Double): nat
  {
    d.Quarters() + d.HalfGapAbove()
  }

  /** The decimal t * 10^e lies between the midpoints around d; the midpoints themselves count when closed. */
  ghost predicate ReadsAs(d: Double, t: nat, e: int, closed: bool)
  {
    var x, low, high := t * Den(e), Num(Low(d), e), Num(High(d), e);
    (low < x || (closed && low == x)) && (x < high || (closed && x == high))
  }

  /** The distance of t * 10^e to d, over a common denominator. */
  ghost function Gap(d: Double, t: nat, e: int): nat
  {
    var x, y := t * Den(e), Num(d.Quarters(), e);
    if x <= y then y - x else x - y
  }

  /** What a reader can answer: zero, the positive doubles, and infinity, which stands where 2^1024 would. */
  predicate Answer(o: Double)
  {
    o.w0 < 0x7ff0_0000 || (o.w0 == 0x7ff0_0000 && o.w1 == 0)
  }

  /** A reader that rounds to nearest turns t * 10^e into d: no other answer is as near, or none is nearer and such ties
      are decided for d. */
  ghost predicate RoundsTo(d: Double, t: nat, e: int, ties: bool)
  {
    forall o: Double | Answer(o) && o != d ::
      Gap(d, t, e) < Gap(o, t, e) || (ties && Gap(d, t, e) == Gap(o, t, e))
  }

  lemma {:induction false} GapsFit(d: Double)
    requires d.Positive()
    ensures 0 < d.HalfGapBelow() <= d.HalfGapAbove() < d.Quarters()
    ensures d.Quarters() <= 0x40_0000_0000_0000 * d.HalfGapBelow()
  {
    hide Pow;
    PositiveUnits(d);
    var m, u := d.Mantissa(), d.Ulp();
    MulLe(1, m, u);
    if d.PowerOfTwo() {
      assert d.ExpField() > 0 && d.Fraction() == 0;
      assert m == 0x10_0000_0000_0000;
    } else {
      MulLe(m, 0x20_0000_0000_0000, u);
    }
  }

  /** The ulp of a double with a larger exponent field is at least twice as large, beyond the subnormals. */
  lemma {:induction false} UlpGrows(a: Double, b: Double)
    requires a.ExpField() <= b.ExpField()
    ensures a.Ulp() <= b.Ulp()
    ensures 0 < a.ExpField() < b.ExpField() ==> 2 * a.Ulp() <= b.Ulp()
  {
    hide Pow;
    PowMono(2, a.Scale() + 1074, b.Scale() + 1074);
    if 0 < a.ExpField() < b.ExpField() {
      PowMono(2, a.Scale() + 1075, b.Scale() + 1074);
      PowAdd(2, a.Scale() + 1074, 1);
      PowOne(2);
    }
  }

  /** Doubles of one exponent field differ in the fraction. */
  lemma {:induction false} SameField(a: Double, b: Double)
    requires Answer(a) && Answer(b) && a.ExpField() == b.ExpField()
    ensures a == b || a.Mantissa() != b.Mantissa()
  {
    AnswerField(a);
    AnswerField(b);
  }

  lemma {:induction false} AnswerField(o: Double)
    requires Answer(o)
    ensures o.ExpField() == o.w0 / 0x10_0000
  {
  }

  /** The doubles above d are at least two half gaps away, and those below as well. */
  lemma {:induction false} Neighbours(d: Double, o: Double)
    requires d.Positive() && Answer(o) && o != d
    ensures o.Quarters() >= d.Quarters() + 2 * d.HalfGapAbove() || o.Quarters() + 2 * d.HalfGapBelow() <= d.Quarters()
  {
    hide Pow;
    if d.ExpField() == o.ExpField() {
      SameField(d, o);
      assert d.Ulp() == o.Ulp();
      SameScale(d.Mantissa(), o.Mantissa(), d.Ulp());
    } else if d.ExpField() < o.ExpField() {
      UlpGrows(d, o);
      HigherField(d.Mantissa(), d.Ulp(), o.Mantissa(), o.Ulp(), d.ExpField() == 0);
    } else {
      UlpGrows(o, d);
      LowerField(d, o);
    }
  }

  lemma {:induction false} SameScale(m: nat, n: nat, u: nat)
    requires m != n
    ensures 4 * (n * u) >= 4 * (m * u) + 4 * u || 4 * (n * u) + 4 * u <= 4 * (m * u)
  {
    if m < n {
      MulLe(m + 1, n, u);
      assert (m + 1) * u == m * u + u;
    } else {
      MulLe(n + 1, m, u);
      assert (n + 1) * u == n * u + u;
    }
  }

  lemma {:induction false} HigherField(m: nat, u: nat, n: nat, w: nat, sub: bool)
    requires n >= 0x10_0000_0000_0000 && u <= w && (!sub ==> 2 * u <= w)
    requires m < (if sub then 0x10_0000_0000_0000 else 0x20_0000_0000_0000)
    ensures 4 * (n * w) >= 4 * (m * u) + 4 * u
  {
    MulLe(0x10_0000_0000_0000, n, w);
    MulLe(m + 1, if sub then 0x10_0000_0000_0000 else 0x20_0000_0000_0000, u);
    assert (m + 1) * u == m * u + u;
  }

  lemma {:induction false} LowerField(d: Double, o: Double)
    requires d.Positive() && o.ExpField() < d.ExpField() && o.Ulp() <= d.Ulp()
    requires o.ExpField() > 0 ==> 2 * o.Ulp() <= d.Ulp()
    ensures o.Quarters() + 2 * d.HalfGapBelow() <= d.Quarters()
  {
    hide Pow, Double.Ulp;
    PositiveUnits(d);
    var m, u, n, w := d.Mantissa(), d.Ulp(), o.Mantissa(), o.Ulp();
    MulLe(0x10_0000_0000_0000, m, u);
    if o.ExpField() == 0 {
      MulLe(n, 0xf_ffff_ffff_ffff, w);
      MulLe(w, u, 0xf_ffff_ffff_ffff);
    } else {
      MulLe(n, 0x1f_ffff_ffff_ffff, w);
      if !d.PowerOfTwo() {
        assert m >= 0x10_0000_0000_0001;
        MulLe(0x10_0000_0000_0001, m, u);
      }
    }
  }

  lemma {:induction false} NumAdd(x: nat, y: nat, e: int)
    ensures Num(x + y, e) == Num(x, e) + Num(y, e)
  {
  }

  lemma {:induction false} NumMono(x: nat, y: nat, e: int)
    requires x <= y
    ensures Num(x, e) <= Num(y, e)
    ensures x < y ==> Num(x, e) < Num(y, e)
  {
    hide Pow;
    MulLe(x, y, Pow(10, Pos(-e)));
    if x < y {
      MulLt(x, y, Pow(10, Pos(-e)));
    }
  }

  /** Another double is at least two half gaps away, also over the common denominator. */
  lemma {:induction false} NeighbourNums(d: Double, o: Double, e: int)
    requires d.Positive() && Answer(o) && o != d
    ensures var q, m := Num(d.Quarters(), e), Num(o.Quarters(), e);
            var a, b := Num(d.HalfGapAbove(), e), Num(d.HalfGapBelow(), e);
            m >= q + 2 * a || m + 2 * b <= q
  {
    hide Num, Double.Quarters, Double.HalfGapAbove, Double.HalfGapBelow, Double.Positive;
    Neighbours(d, o);
    var q, a, b, m := d.Quarters(), d.HalfGapAbove(), d.HalfGapBelow(), o.Quarters();
    NumAdd(a, a, e);
    NumAdd(q, 2 * a, e);
    NumAdd(b, b, e);
    NumAdd(m, 2 * b, e);
    if m >= q + 2 * a {
      NumMono(q + 2 * a, m, e);
    } else {
      NumMono(m + 2 * b, q, e);
    }
  }

  lemma {:induction false} MidpointNums(d: Double, e: int)
    requires d.Positive()
    ensures Num(Low(d), e) == Num(d.Quarters(), e) - Num(d.HalfGapBelow(), e)
    ensures Num(High(d), e) == Num(d.Quarters(), e) + Num(d.HalfGapAbove(), e)
    ensures Num(d.HalfGapAbove(), e) > 0 && Num(d.HalfGapBelow(), e) > 0 && Num(Low(d), e) > 0
  {
    hide Num, Double.Quarters, Double.HalfGapAbove, Double.HalfGapBelow, Double.Positive;
    GapsFit(d);
    NumAdd(Low(d), d.HalfGapBelow(), e);
    NumAdd(d.Quarters(), d.HalfGapAbove(), e);
    NumAdd(0, 0, e);
    NumMono(0, d.HalfGapAbove(), e);
    NumMono(0, d.HalfGapBelow(), e);
    NumMono(0, Low(d), e);
  }

  // ---- the neighbours ----

  function Next(d: Double): (r: Double)
    requires d.Positive()
  {
    if d.w1 == 0xffff_ffff then Double(d.w0 + 1, 0) else Double(d.w0, d.w1 + 1)
  }

  function Previous(d: Double): (r: Double)
    requires d.Positive()
  {
    if d.w1 == 0 then Double(d.w0 - 1, 0xffff_ffff) else Double(d.w0, d.w1 - 1)
  }

  /** One exponent field further, the unit in the last place is twice as large, except from the subnormals. */
  lemma {:induction false} NextUlp(a: Double, b: Double)
    requires b.ExpField() == a.ExpField() + 1
    ensures b.Ulp() == if a.ExpField() == 0 then a.Ulp() else 2 * a.Ulp()
  {
    if a.ExpField() > 0 {
      PowNext(2, b.Scale() + 1074);
    }
  }

  /** The next answer lies twice the half gap above. */
  lemma {:induction false} NextAbove(d: Double)
    requires d.Positive()
    ensures Answer(Next(d)) && Next(d) != d && Next(d).Quarters() == d.Quarters() + 2 * d.HalfGapAbove()
  {
    hide Double.Ulp;
    var o := Next(d);
    PositiveUnits(d);
    AnswerField(o);
    if d.Fraction() == 0xf_ffff_ffff_ffff {
      assert o.ExpField() == d.ExpField() + 1 && o.Fraction() == 0;
      NextUlp(d, o);
      Twice(0x10_0000_0000_0000, d.Ulp());
      OneMore(d.Mantissa(), d.Ulp());
    } else {
      assert o.ExpField() == d.ExpField() && o.Fraction() == d.Fraction() + 1;
      SameUlp(d, o);
      OneMore(d.Mantissa(), d.Ulp());
    }
  }

  /** And the previous one twice the half gap below. */
  lemma {:induction false} PreviousBelow(d: Double)
    requires d.Positive()
    ensures Answer(Previous(d)) && Previous(d) != d && Previous(d).Quarters() + 2 * d.HalfGapBelow() == d.Quarters()
  {
    hide Double.Ulp;
    var o := Previous(d);
    PositiveUnits(d);
    AnswerField(o);
    if d.Fraction() == 0 {
      assert o.ExpField() == d.ExpField() - 1 && o.Fraction() == 0xf_ffff_ffff_ffff;
      NextUlp(o, d);
      Twice(0x10_0000_0000_0000, o.Ulp());
      OneMore(o.Mantissa(), o.Ulp());
    } else {
      assert o.ExpField() == d.ExpField() && o.Fraction() == d.Fraction() - 1;
      SameUlp(d, o);
      OneMore(o.Mantissa(), d.Ulp());
    }
  }

  lemma {:induction false} SameUlp(a: Double, b: Double)
    requires a.ExpField() == b.ExpField()
    ensures a.Ulp() == b.Ulp()
  {
  }

  lemma {:induction false} OneMore(m: nat, u: nat)
    ensures (m + 1) * u == m * u + u
  {
  }

  lemma {:induction false} Twice(m: nat, u: nat)
    ensures m * (2 * u) == 2 * m * u
  {
  }

  /** Which of two neighbours a number is nearer to is decided at the midpoint. */
  lemma {:induction false} Midpoint(x: nat, q: nat, a: nat)
    requires a > 0
    ensures var near, far := if x <= q then q - x else x - q, if x <= q + 2 * a then q + 2 * a - x else x - (q + 2 * a);
      (near < far <==> x < q + a) && (near == far <==> x == q + a)
  {
  }

  lemma {:induction false} MidpointBelow(x: nat, q: nat, b: nat)
    requires 0 < b && 2 * b <= q
    ensures var near, far := if x <= q then q - x else x - q, if x <= q - 2 * b then q - 2 * b - x else x - (q - 2 * b);
      (near < far <==> q - b < x) && (near == far <==> q - b == x)
  {
  }

  /** The decimals in the interval around d, with or without its ends, are exactly those that a reader turns into d. */
  lemma {:induction false} ReadsExactly(d: Double, t: nat, e: int, closed: bool)
    requires d.Positive()
    ensures ReadsAs(d, t, e, closed) <==> RoundsTo(d, t, e, closed)
  {
    hide Num, Den, Double.Quarters, Double.HalfGapAbove, Double.HalfGapBelow, Double.Positive, Low, High, Answer;
    hide Next, Previous;
    MidpointNums(d, e);
    var x, q, a, b := t * Den(e), Num(d.Quarters(), e), Num(d.HalfGapAbove(), e), Num(d.HalfGapBelow(), e);
    if ReadsAs(d, t, e, closed) {
      forall o: Double | Answer(o) && o != d
        ensures Gap(d, t, e) < Gap(o, t, e) || (closed && Gap(d, t, e) == Gap(o, t, e))
      {
        NeighbourNums(d, o, e);
      }
    }
    if RoundsTo(d, t, e, closed) {
      NextAbove(d);
      PreviousBelow(d);
      NumTwice(d.Quarters(), d.HalfGapAbove(), e);
      NumTwice(Previous(d).Quarters(), d.HalfGapBelow(), e);
      Midpoint(x, q, a);
      MidpointBelow(x, q, b);
    }
  }

  lemma {:induction false} NumTwice(x: nat, y: nat, e: int)
    ensures Num(x + 2 * y, e) == Num(x, e) + 2 * Num(y, e)
  {
    NumAdd(y, y, e);
    NumAdd(x, 2 * y, e);
    hide Num;
  }

  /** The same decimal, written one place further right. */
  lemma {:induction false} SameDecimal(t: nat, e: int, x: nat)
    ensures t * Den(e) < Num(x, e) <==> 10 * t * Den(e - 1) < Num(x, e - 1)
    ensures t * Den(e) == Num(x, e) <==> 10 * t * Den(e - 1) == Num(x, e - 1)
  {
    hide Num, Den;
    TenTimes(x, e);
    if e > 0 {
      assert t * (10 * Den(e - 1)) == 10 * t * Den(e - 1);
    } else {
      assert 10 * (t * Den(e)) == 10 * t * Den(e);
    }
  }

  lemma {:induction false} ReadsShifted(d: Double, t: nat, e: int, closed: bool, n: nat)
    ensures ReadsAs(d, t, e, closed) <==> ReadsAs(d, t * Pow(10, n), e - n, closed)
    decreases n
  {
    hide Num, Den, Low, High;
    if n == 0 {
      assert t * Pow(10, 0) == t;
    } else {
      ReadsShifted(d, t, e, closed, n - 1);
      var u := t * Pow(10, n - 1);
      SameDecimal(u, e - n + 1, Low(d));
      SameDecimal(u, e - n + 1, High(d));
      assert 10 * u == t * Pow(10, n);
    }
  }
}
