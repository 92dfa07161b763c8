/** Decimal digit strings, decimal scaling of doubles, and rounding to nearest with ties to even. */
module Decimals {
  import opened Arith

  /** A decimal digit; the source stores it as the character '0' + digit. */
  type Digit = n: nat | n < 10

  /** The number a digit string denotes, most significant digit first. */
  function DigitsVal(s: seq<Digit>): (r: nat)
  {
    if s == [] then 0 else 10 * DigitsVal(s[..|s| - 1]) + s[|s| - 1]
  }

  lemma {:induction false} DigitsSnoc(s: seq<Digit>, d: Digit)
    ensures DigitsVal(s + [d]) == 10 * DigitsVal(s) + d
  {
    assert (s + [d])[..|s|] == s;
  }

  /** x / 10^k for a number of quarter units (2^-1076) x: the numerator. */
  function Num(x: nat, k: int): (r: nat)
  {
    x * Pow(10, Pos(-k))
  }

  /** x / 10^k for a number of quarter units x: the denominator. */
  function Den(k: int): (r: nat)
    ensures r > 0
  {
    DenPositive(Pow(2, 1076), Pow(10, Pos(k)));
    Pow(2, 1076) * Pow(10, Pos(k))
  }

  lemma {:induction false} DenPositive(a: nat, b: nat)
    requires a > 0 && b > 0
    ensures a * b > 0
  {
  }

  /** a / b == c / d */
  ghost predicate SameRatio(a: nat, b: nat, c: nat, d: nat)
  {
    a * d == b * c
  }

  /** One decimal place further. */
  lemma {:induction false} TenTimes(x: nat, k: int)
    ensures k > 0 ==> Num(x, k) == Num(x, k - 1) && Den(k) == 10 * Den(k - 1)
    ensures k <= 0 ==> 10 * Num(x, k) == Num(x, k - 1) && Den(k) == Den(k - 1)
  {
    if k > 0 {
      assert Pow(10, Pos(k)) == 10 * Pow(10, Pos(k - 1));
    } else {
      assert Pow(10, Pos(-(k - 1))) == 10 * Pow(10, Pos(-k));
    }
  }

  lemma {:induction false} ShiftRatio(a: nat, s: nat, x: nat, k: int)
    requires SameRatio(a, s, Num(x, k), Den(k))
    ensures SameRatio(10 * a, s, Num(x, k - 1), Den(k - 1))
  {
    hide Num, Den;
    TenTimes(x, k);
    if k > 0 {
      assert a * (10 * Den(k - 1)) == 10 * a * Den(k - 1);
    } else {
      assert s * (10 * Num(x, k)) == 10 * (s * Num(x, k));
      assert 10 * a * Den(k) == 10 * (a * Den(k));
    }
  }

  lemma {:induction false} ShiftRatioBy(a: nat, s: nat, x: nat, k: int, n: nat)
    requires SameRatio(a, s, Num(x, k), Den(k))
    ensures SameRatio(a * Pow(10, n), s, Num(x, k - n), Den(k - n))
    decreases n
  {
    hide Num, Den, SameRatio;
    if n > 0 {
      ShiftRatioBy(a, s, x, k, n - 1);
      ShiftRatio(a * Pow(10, n - 1), s, x, k - n + 1);
      assert 10 * (a * Pow(10, n - 1)) == a * Pow(10, n);
    } else {
      assert a * Pow(10, 0) == a;
    }
  }

  /** p / q rounded to the nearest integer, ties to the even one. */
  function RoundHalfEven(p: nat, q: nat): (r: nat)
    requires q > 0
  {
    var f, rest := p / q, p % q;
    if 2 * rest > q || (2 * rest == q && f % 2 == 1) then f + 1 else f
  }

  /** The distance of m to p / q, in units of 1 / q. */
  function Distance(p: nat, q: nat, m: int): (r: nat)
  {
    if m * q <= p then p - m * q else m * q - p
  }

  /** Rounding is to a nearest integer; when two are equally near it takes the even one. */
  lemma {:induction false} RoundNearest(p: nat, q: nat, m: int)
    requires q > 0
    ensures var r := RoundHalfEven(p, q);
      && Distance(p, q, r) <= Distance(p, q, m)
      && (Distance(p, q, r) == Distance(p, q, m) && m != r ==> r % 2 == 0)
  {
    var f, rest := p / q, p % q;
    assert p == f * q + rest;
    NearestTo(p, q, f, rest, m);
    hide Distance;
  }

  lemma {:induction false} NearestTo(p: nat, q: nat, f: nat, rest: nat, m: int)
    requires q > 0 && p == f * q + rest && rest < q
    ensures Distance(p, q, f) == rest && Distance(p, q, f + 1) == q - rest
    ensures m < f ==> Distance(p, q, m) >= rest + q
    ensures m > f + 1 ==> Distance(p, q, m) >= 2 * q - rest
  {
    assert (f + 1) * q == f * q + q && (f - 1) * q == f * q - q && (f + 2) * q == f * q + 2 * q;
    if m < f {
      MulLe(m, f - 1, q);
    } else if m > f + 1 {
      MulLe(f + 2, m, q);
    }
  }

  /** Rounding depends on the ratio only. */
  lemma {:induction false} RoundSameRatio(p: nat, q: nat, p2: nat, q2: nat)
    requires q > 0 && q2 > 0 && SameRatio(p, q, p2, q2)
    ensures RoundHalfEven(p, q) == RoundHalfEven(p2, q2)
  {
    var f, rest := p / q, p % q;
    var g, rest2 := p2 / q2, p2 % q2;
    RoundSameParts(p, q, p2, q2, f, rest);
  }

  lemma {:induction false} RoundSameParts(p: nat, q: nat, p2: nat, q2: nat, f: nat, rest: nat)
    requires q > 0 && q2 > 0 && p * q2 == q * p2 && p == f * q + rest && rest < q
    ensures p2 / q2 == f && rest * q2 == q * (p2 % q2)
    ensures 2 * rest > q <==> 2 * (p2 % q2) > q2
    ensures 2 * rest == q <==> 2 * (p2 % q2) == q2
  {
    var rest2 := p2 - f * q2;
    assert (f * q + rest) * q2 == q * (f * q2) + rest * q2;
    assert q * p2 == q * (f * q2) + q * rest2;
    assert rest * q2 == q * rest2;
    MulLt(rest, q, q2);
    assert q * rest2 < q * q2;
    assert 0 <= q * rest2;
    SameOrder(rest2, q2, q);
    DivModUnique(p2, q2, f, rest2);
    HalfOrder(rest, q, rest2, q2);
  }

  lemma {:induction false} SameOrder(a: int, b: int, c: int)
    requires c > 0 && 0 <= c * a < c * b
    ensures 0 <= a < b
  {
    if a < 0 {
      MulLe(a, -1, c);
    }
    if a >= b {
      MulLe(b, a, c);
    }
  }

  lemma {:induction false} HalfOrder(r: nat, q: nat, r2: nat, q2: nat)
    requires q > 0 && q2 > 0 && r * q2 == q * r2
    ensures 2 * r > q <==> 2 * r2 > q2
    ensures 2 * r == q <==> 2 * r2 == q2
  {
    assert 2 * r * q2 == 2 * r2 * q;
    if 2 * r > q {
      MulLt(q, 2 * r, q2);
      assert q2 * q < 2 * r2 * q;
      MulCancelLt(q2, 2 * r2, q);
    } else if 2 * r < q {
      MulLt(2 * r, q, q2);
      assert 2 * r2 * q < q2 * q;
      MulCancelLt(2 * r2, q2, q);
    } else {
      assert 2 * r2 * q == q2 * q;
      MulCancelLe(2 * r2, q2, q);
      MulCancelLe(q2, 2 * r2, q);
    }
  }

  /** c * 5^max(-k, 0) * 2^a2 over 5^max(k, 0) * 2^s2 is (c * 2^f) / 10^k when the powers of two balance. */
  lemma {:induction false} ScaledRatio(c: nat, a2: nat, s2: nat, f: nat, k: int)
    requires a2 - s2 == f - 1076 - k
    ensures SameRatio(c * Pow(5, Pos(-k)) * Pow(2, a2), Pow(5, Pos(k)) * Pow(2, s2), Num(c * Pow(2, f), k), Den(k))
  {
    hide Pow, Num, Den, SameRatio, Prod3;
    var m, n := Pos(k), Pos(-k);
    TwosBalance(a2, s2, f, m, n, 1076);
    NumForm(c * Pow(2, f), k);
    DenForm(k);
    BalancedTwos(c, Pow(2, a2), Pow(2, 1076), Pow(2, m), Pow(5, m), Pow(2, s2), Pow(2, f), Pow(2, n), Pow(5, n));
  }

  lemma {:induction false} NumForm(x: nat, k: int)
    ensures Num(x, k) == x * (Pow(2, Pos(-k)) * Pow(5, Pos(-k)))
  {
    hide Pow;
    PowProduct(2, 5, Pos(-k));
  }

  lemma {:induction false} DenForm(k: int)
    ensures Den(k) == Pow(2, 1076) * (Pow(2, Pos(k)) * Pow(5, Pos(k)))
  {
    hide Pow;
    PowProduct(2, 5, Pos(k));
  }

  ghost function Prod3(a: nat, b: nat, c: nat): nat
  {
    a * (b * c)
  }

  lemma {:induction false} PowAdd3(b: nat, x: nat, y: nat, z: nat)
    ensures Prod3(Pow(b, x), Pow(b, y), Pow(b, z)) == Pow(b, x + y + z)
  {
    hide Pow;
    PowAdd(b, y, z);
    PowAdd(b, x, y + z);
    assert x + (y + z) == x + y + z;
  }

  lemma {:induction false} TwosBalance(a2: nat, s2: nat, f: nat, m: nat, n: nat, h: nat)
    requires a2 + h + m == s2 + f + n
    ensures Prod3(Pow(2, a2), Pow(2, h), Pow(2, m)) == Prod3(Pow(2, s2), Pow(2, f), Pow(2, n))
  {
    hide Pow, Prod3;
    PowAdd3(2, a2, h, m);
    PowAdd3(2, s2, f, n);
  }

  lemma {:induction false} BalancedTwos(c: nat, a: nat, h: nat, m: nat, m5: nat, s: nat, f: nat, n: nat, n5: nat)
    requires Prod3(a, h, m) == Prod3(s, f, n)
    ensures SameRatio(c * n5 * a, m5 * s, c * f * (n * n5), h * (m * m5))
  {
    Shuffle(c, a, n5, h, m, m5);
    Shuffle2(s, m5, c, f, n, n5);
  }

  lemma {:induction false} Shuffle(c: nat, a: nat, n5: nat, h: nat, m: nat, m5: nat)
    ensures (c * n5 * a) * (h * (m * m5)) == (c * n5 * m5) * (a * (h * m))
  {
    assert h * (m * m5) == (h * m) * m5;
    var t := h * m;
    assert (c * n5 * a) * (t * m5) == (c * n5 * m5) * (a * t);
  }

  lemma {:induction false} Shuffle2(s: nat, m5: nat, c: nat, f: nat, n: nat, n5: nat)
    ensures (m5 * s) * (c * f * (n * n5)) == (c * n5 * m5) * (s * (f * n))
  {
    assert c * f * (n * n5) == c * (f * n) * n5;
    var t := f * n;
    assert (m5 * s) * (c * t * n5) == (c * n5 * m5) * (s * t);
  }
}
