/** quorem of dtoa.c: one digit of a quotient from an estimate on the top words. */
module Quorem {
  import opened Arith
  import opened Words
  import opened Bigints
  import opened Compare

  /** What is left of v when q times d is taken away. */
  ghost function Rest(v: int, q: int, d: int): int
  {
    v - q * d
  }

  /** q and r are quotient and remainder of v by d. */
  ghost predicate DivMod(v: nat, d: nat, q: nat, r: nat)
  {
    d > 0 && q == v / d && r == v % d
  }

  /** Inside the loops of quorem: q times the low i words of S is subtracted; borrow and carry are owed at weight i. */
  ghost predicate Subtracting(s: seq<Word>, u: seq<Word>, d: seq<Word>, q: nat, i: nat, borrow: int, carry: int)
  {
    && |u| == |s| == |d| && i <= |s| && 0 <= borrow <= 1 && 0 <= carry <= q
    && Rest(Val(u), borrow + carry, Weight(i)) == Rest(Val(s), q, Val(d[..i]))
    && u[i..] == s[i..]
  }

  lemma {:induction false} SubtractStart(s: seq<Word>, d: seq<Word>, q: nat)
    requires |s| == |d|
    ensures Subtracting(s, s, d, q, 0, 0, 0)
  {
    hide Val, Weight;
    ValEmpty(d[..0]);
  }

  lemma {:induction false} ProductWord(x: Word, q: nat, carry: int)
    requires q < BASE && 0 <= carry <= q
    ensures 0 <= x * q + carry < BASE64 && (x * q + carry) / BASE <= q
  {
    MulLe(x, 0xffff_ffff, q);
    assert 0 <= x * q + carry <= q * BASE;
  }

  lemma {:induction false} SubtractStep(s: seq<Word>, u: seq<Word>, d: seq<Word>, q: nat, i: nat, borrow: int,
      carry: int)
    returns (low: Word)
    requires Subtracting(s, u, d, q, i, borrow, carry) && i < |s| && q < BASE
    ensures var ys := d[i] * q + carry;
            var y := (u[i] - ys % BASE - borrow) % BASE64;
            low == y % BASE && Subtracting(s, u[i := low], d, q, i + 1, (y / BASE) % 2, ys / BASE)
  {
    hide Val, Weight, Pow, Rest;
    var ys := d[i] * q + carry;
    var y := (u[i] - ys % BASE - borrow) % BASE64;
    ProductWord(d[i], q, carry);
    BorrowWord(u[i], ys % BASE, borrow);
    low := y % BASE;
    ValUpdate(u, i, low);
    ValStep(d, i);
    assert u[i := low][i + 1..] == u[i..][1..] && s[i + 1..] == s[i..][1..];
    SubtractArith(Val(u), Val(s), q, Val(d[..i]), d[i], u[i], borrow, carry, ys, ys / BASE, ys % BASE, low,
                  (y / BASE) % 2, Weight(i), Val(u[i := low]), Weight(i + 1), Val(d[..i + 1]));
  }

  lemma {:induction false} SubtractArith(v: int, v0: int, q: int, prefix: int, x: int, b: int, borrow: int, carry: int,
                      ys: int, c: int, l: int, low: int, next: int, wt: int, v2: int, wt2: int, prefix2: int)
    requires Rest(v, borrow + carry, wt) == Rest(v0, q, prefix)
    requires ys == x * q + carry == c * BASE + l && low == b - l - borrow + BASE * next
    requires v2 == v + (low - b) * wt && wt2 == BASE * wt && prefix2 == prefix + x * wt
    ensures Rest(v2, next + c, wt2) == Rest(v0, q, prefix2)
  {
    assert (low - b) * wt == BASE * next * wt - l * wt - borrow * wt;
    assert (next + c) * (BASE * wt) == BASE * next * wt + c * BASE * wt;
    assert (x * q + carry) * wt == x * q * wt + carry * wt == c * BASE * wt + l * wt;
    assert q * (prefix + x * wt) == q * prefix + x * q * wt;
  }

  lemma {:induction false} SubtractAll(s: seq<Word>, u: seq<Word>, d: seq<Word>, q: nat, borrow: int, carry: int)
    requires Subtracting(s, u, d, q, |s|, borrow, carry)
    ensures Rest(Val(u), borrow + carry, Weight(|s|)) == Rest(Val(s), q, Val(d))
    ensures 0 <= borrow + carry && |u| == |s|
  {
    hide Rest, Val, Weight;
    assert d[..|s|] == d;
  }

  lemma {:induction false} SubtractDone(s: seq<Word>, u: seq<Word>, d: seq<Word>, q: nat, borrow: int, carry: int)
    requires Subtracting(s, u, d, q, |s|, borrow, carry) && Rest(Val(s), q, Val(d)) >= 0
    ensures Val(u) == Rest(Val(s), q, Val(d))
  {
    hide Subtracting, Rest, Val, Weight, Pow;
    SubtractAll(s, u, d, q, borrow, carry);
    ValBound(u);
    NothingOwed(Val(u), borrow + carry, Weight(|s|), Rest(Val(s), q, Val(d)));
  }

  lemma {:induction false} NothingOwed(v: nat, owed: int, wt: nat, r: int)
    requires v < wt && 0 <= owed && Rest(v, owed, wt) == r && 0 <= r
    ensures v == r
  {
    if owed > 0 {
      MulLe(1, owed, wt);
    }
  }

  /** b - q * S in place, over all words of S. */
  method SubtractMultiple(b: Bigint, S: Bigint, q: nat)
    requires b.Valid() && S.Valid() && b.x != S.x && b.wds == S.wds > 0
    requires q < BASE && Rest(b.Value(), q, S.Value()) >= 0
    modifies b.x
    ensures Val(b.x[..b.wds]) == Rest(old(b.Value()), q, S.Value())
  {
    hide Subtracting, Val, Weight, Pow, Rest;
    var n := S.wds;
    ghost var s, d := b.x[..n], S.x[..n];
    var borrow, carry := 0, 0;
    var i := 0;
    SubtractStart(s, d, q);
    while i == 0 || i < n
      invariant 0 <= i <= n && 0 <= borrow <= 1 && 0 <= carry <= q
      invariant Subtracting(s, b.x[..n], d, q, i, borrow, carry)
      decreases n - i
    {
      ghost var u := b.x[..n];
      ghost var low := SubtractStep(s, u, d, q, i, borrow, carry);
      ProductWord(S.x[i], q, carry);
      var ys := S.x[i] * q + carry;
      carry := ys / BASE;
      var y := (b.x[i] - ys % BASE - borrow) % BASE64;
      borrow := (y / BASE) % 2;
      b.x[i] := y % BASE;
      assert b.x[..n] == u[i := low];
      i := i + 1;
    }
    SubtractDone(s, b.x[..n], d, q, borrow, carry);
  }

  /** Dropping the leading zero words after a subtraction; a one-word zero is left with no word at all. */
  method TrimTop(b: Bigint)
    requires 0 < b.wds <= b.x.Length == b.maxwds == Pow(2, b.k)
    modifies b`wds
    ensures b.Valid() && b.Value() == old(Val(b.x[..b.wds]))
    ensures b.wds <= old(b.wds)
    ensures b.wds < old(b.wds) || b.x[b.wds - 1] != 0
  {
    hide Val, Weight, Pow;
    var n := b.wds - 1;
    ghost var s := b.x[..b.wds];
    if b.x[n] == 0 {
      var e: int := n - 1;
      while e > 0 && b.x[e] == 0
        invariant -1 <= e < n < |s| && n <= e + 1 && (e <= 0 ==> n <= 1)
        invariant forall i | n <= i < |s| :: s[i] == 0
      {
        n := n - 1;
        e := e - 1;
      }
      b.wds := n;
      ValZeros(s, n);
      assert b.x[..n] == s[..n];
      assert n == 0 ==> s[0] == 0;
    }
  }

  /** The guess *bxe / (*sxe + 1). */
  function TopQuotient(bt: nat, st: nat): (q: nat)
    ensures q * (st + 1) <= bt < q * (st + 1) + st + 1
  {
    bt / (st + 1)
  }

  /** The estimate from the top words is never too big and at most one too small. */
  lemma {:induction false} Estimate(s: seq<Word>, d: seq<Word>, q: nat)
    requires |s| == |d| > 0 && d[|d| - 1] >= 0x800_0000 && q == TopQuotient(s[|s| - 1], d[|d| - 1])
    ensures q < 32 && 0 <= Rest(Val(s), q, Val(d)) < 2 * Val(d)
  {
    hide Val, Weight, Pow, TopQuotient;
    var n := |s| - 1;
    var bt: int, st: int, w := s[n], d[n], Weight(n);
    ValTop(s);
    ValTop(d);
    EstimateArith(bt, st, q, w, Val(s), Val(d));
    assert (q + 2) * Val(d) == q * Val(d) + 2 * Val(d);
  }

  lemma {:induction false} EstimateArith(bt: int, st: int, q: nat, w: nat, v: nat, d: nat)
    requires 0 <= bt < BASE && 0x800_0000 <= st && q * (st + 1) <= bt < q * (st + 1) + st + 1 && w > 0
    requires bt * w <= v < (bt + 1) * w && st * w <= d < (st + 1) * w
    ensures q < 32 && q * d <= v < (q + 2) * d
  {
    if q >= 32 {
      MulLe(32, q, st + 1);
    }
    assert q * d <= q * ((st + 1) * w) by {
      MulLe(d, (st + 1) * w, q);
    }
    assert q * ((st + 1) * w) == q * (st + 1) * w;
    MulLe(q * (st + 1), bt, w);
    assert (q + 1) * (st + 1) <= (q + 2) * st;
    MulLe(bt + 1, (q + 2) * st, w);
    assert (q + 2) * st * w == (q + 2) * (st * w);
    MulLe(st * w, d, q + 2);
  }

  lemma {:induction false} OneMore(v: nat, d: nat, q: nat)
    requires d > 0 && 0 <= Rest(v, q, d) < 2 * d
    ensures Rest(v, q, d) < d ==> DivMod(v, d, q, Rest(v, q, d))
    ensures Rest(v, q, d) >= d ==> DivMod(v, d, q + 1, Rest(v, q, d) - d)
    ensures q == 0 ==> Rest(v, q, d) == v
  {
    assert (q + 1) * d == q * d + d;
    if v - q * d < d {
      DivModUnique(v, d, q, v - q * d);
    } else {
      DivModUnique(v, d, q + 1, v - q * d - d);
    }
  }

  method EstimateDigit(b: Bigint, S: Bigint) returns (q: nat)
    requires b.Valid() && S.Valid() && 0 < S.wds == b.wds && S.x[S.wds - 1] >= 0x800_0000
    ensures q < 32 && 0 <= Rest(b.Value(), q, S.Value()) < 2 * S.Value()
  {
    hide Val, Weight, Pow, Rest, TopQuotient;
    var n := S.wds;
    q := TopQuotient(b.x[n - 1], S.x[n - 1]);
    Estimate(b.x[..n], S.x[..n], q);
  }

  /** A divisor and a dividend of the same length: estimate, subtract, correct. */
  method DivideSameLength(b: Bigint, S: Bigint) returns (q: nat)
    requires b.Valid() && S.Valid() && b.x != S.x && S.Value() > 0
    requires 0 < S.wds == b.wds && S.x[S.wds - 1] >= 0x800_0000
    modifies b`wds, b.x
    ensures b.Valid() && b.wds <= S.wds
    ensures DivMod(old(b.Value()), S.Value(), q, b.Value())
  {
    hide Val, Weight, Pow, Rest, DivMod;
    q := EstimateDigit(b, S);
    OneMore(b.Value(), S.Value(), q);
    ghost var rest := Rest(b.Value(), q, S.Value());
    if q != 0 {
      SubtractMultiple(b, S, q);
      TrimTop(b);
    }
    assert b.Value() == rest;
    q := Correct(b, S, q);
  }

  /** The correction step of quorem: one more subtraction when the remainder still holds S. */
  method Correct(b: Bigint, S: Bigint, q0: nat) returns (q: nat)
    requires b.Valid() && S.Valid() && b.x != S.x && b.wds <= S.wds && S.Value() > 0
    requires b.Value() < 2 * S.Value()
    modifies b`wds, b.x
    ensures b.Valid() && b.wds <= S.wds
    ensures q == q0 + (if old(b.Value()) >= S.Value() then 1 else 0)
    ensures b.Value() == old(b.Value()) - (if old(b.Value()) >= S.Value() then S.Value() else 0)
  {
    hide Val, Weight, Pow;
    q := q0;
    if S.wds == 0 {
      ValEmpty(S.x[..0]);
    }
    var c := Cmp(b, S);
    if c >= 0 {
      q := q + 1;
      if b.wds < S.wds {
        FewerWords(b, S);
      }
      assert Rest(b.Value(), 1, S.Value()) == b.Value() - S.Value();
      SubtractMultiple(b, S, 1);
      TrimTop(b);
    }
  }

  /** quorem: returns floor(b / S) and leaves b mod S, for a divisor whose top word has at most four leading zeros. */
  method QuoRem(b: Bigint, S: Bigint) returns (q: nat)
    requires b.Valid() && S.Valid() && b.x != S.x
    requires 0 < S.wds && b.wds <= S.wds && S.x[S.wds - 1] >= 0x800_0000
    modifies b`wds, b.x
    ensures b.Valid() && b.wds <= S.wds
    ensures DivMod(old(b.Value()), S.Value(), q, b.Value())
  {
    hide Val, Weight, Pow;
    var n := S.wds;
    ValTop(S.x[..n]);
    if b.wds < n {
      MoreWords(b.x[..b.wds], S.x[..n]);
      DivModUnique(b.Value(), S.Value(), 0, b.Value());
      q := 0;
    } else {
      q := DivideSameLength(b, S);
    }
  }
}
