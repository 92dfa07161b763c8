/** Powers, products and quotients of natural numbers: the arithmetic the other modules share. */
module Arith {

  function Pow(b: nat, e: nat): (r: nat)
    ensures b > 0 ==> r > 0
  {
    if e == 0 then 1 else b * Pow(b, e - 1)
  }

  function Max(a: int, b: int): (r: int)
  {
    if a < b then b else a
  }

  /** The non-negative part of an integer exponent. */
  function Pos(e: int): (r: nat)
  {
    if e < 0 then 0 else e
  }

  lemma {:induction false} PowNext(b: nat, n: nat)
    requires n > 0
    ensures Pow(b, n) == b * Pow(b, n - 1)
  {
  }

  lemma {:induction false} PowAdd(b: nat, m: nat, n: nat)
    ensures Pow(b, m + n) == Pow(b, m) * Pow(b, n)
  {
    if m == 0 {
    } else {
      PowAdd(b, m - 1, n);
      MulAssoc(b, Pow(b, m - 1), Pow(b, n));
    }
  }

  lemma {:induction false} PowMono(b: nat, m: nat, n: nat)
    requires b >= 1 && m <= n
    ensures Pow(b, m) <= Pow(b, n)
  {
    if m < n {
      PowMono(b, m, n - 1);
      MulLe(1, b, Pow(b, n - 1));
    }
  }

  lemma {:induction false} PowStrict(b: nat, m: nat, n: nat)
    requires b >= 2 && m < n
    ensures Pow(b, m) < Pow(b, n)
  {
    PowMono(b, m, n - 1);
    MulLe(2, b, Pow(b, n - 1));
  }

  lemma {:induction false} PowProduct(a: nat, b: nat, n: nat)
    ensures Pow(a * b, n) == Pow(a, n) * Pow(b, n)
  {
    if n > 0 {
      PowProduct(a, b, n - 1);
      MulSwap(a, b, Pow(a, n - 1), Pow(b, n - 1));
    }
  }

  lemma {:induction false} PowPower(b: nat, m: nat, n: nat)
    ensures Pow(Pow(b, m), n) == Pow(b, m * n)
  {
    if n == 0 {
      assert m * n == 0;
    } else {
      PowPower(b, m, n - 1);
      assert m * n == m + m * (n - 1);
      PowAdd(b, m, m * (n - 1));
    }
  }

  lemma {:induction false} MulAssoc(a: int, b: int, c: int)
    ensures a * (b * c) == a * b * c
  {
  }

  lemma {:induction false} MulSwap(a: int, b: int, c: int, d: int)
    ensures a * b * (c * d) == a * c * (b * d)
  {
  }

  lemma {:induction false} MulLe(a: int, b: int, c: int)
    requires a <= b && 0 <= c
    ensures a * c <= b * c
  {
  }

  lemma {:induction false} MulLt(a: int, b: int, c: int)
    requires a < b && 0 < c
    ensures a * c < b * c
  {
  }

  /** Cancelling a positive factor. */
  lemma {:induction false} MulCancelLe(a: int, b: int, c: int)
    requires 0 < c && a * c <= b * c
    ensures a <= b
  {
    if b < a {
      MulLt(b, a, c);
    }
  }

  lemma {:induction false} MulCancelLt(a: int, b: int, c: int)
    requires 0 < c && a * c < b * c
    ensures a < b
  {
    if b <= a {
      MulLe(b, a, c);
    }
  }

  /** Quotient and remainder are determined by the division equation. */
  lemma {:induction false} DivModUnique(n: int, d: int, q: int, r: int)
    requires d > 0 && n == q * d + r && 0 <= r < d
    ensures n / d == q && n % d == r
  {
    var q', r' := n / d, n % d;
    assert n == q' * d + r';
    assert (q + 1) * d == q * d + d && (q' + 1) * d == q' * d + d;
    if q < q' {
      MulLe(q + 1, q', d);
    } else if q' < q {
      MulLe(q' + 1, q, d);
    }
  }

  lemma {:induction false} PowOne(b: nat)
    ensures Pow(b, 1) == b && Pow(b, 0) == 1
  {
    assert Pow(b, 0) == 1;
  }

  lemma {:induction false} PowSplit(b: nat, m: nat, n: nat)
    requires m <= n
    ensures Pow(b, n) == Pow(b, m) * Pow(b, n - m)
  {
    PowAdd(b, m, n - m);
  }
}
