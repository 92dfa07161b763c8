/** dtoa with a fixed number of digits (modes 2 and 3): the digit loop, rounding, carrying and trimming. */
module FixedDigits {
  import opened Arith
  import opened Words
  import opened Bigints
  import opened PowersOfFive
  import opened Shifts
  import opened Compare
  import opened Quorem
  import opened Doubles
  import opened Decimals
  import opened Scaling

  /** The digits of b0 / S so far, and the remainder r from which the next digit comes. */
  ghost predicate Digitized(b0: nat, S: nat, s: seq<Digit>, r: nat)
  {
    s != [] && r < S && b0 * Pow(10, |s| - 1) == DigitsVal(s) * S + r
  }

  /** The digits of b0 / S so far, and the number h whose quotient by S is the next digit. */
  ghost predicate Pending(b0: nat, S: nat, s: seq<Digit>, h: nat)
  {
    h < 10 * S && b0 * Pow(10, |s|) == 10 * (DigitsVal(s) * S) + h
  }

  lemma {:induction false} NothingPrinted(b0: nat, S: nat)
    requires b0 < 10 * S
    ensures Pending(b0, S, [], b0)
  {
    PowOne(10);
  }

  lemma {:induction false} QuotientBelow(b: nat, S: nat, q: nat, r: nat)
    requires DivMod(b, S, q, r) && b < 10 * S
    ensures q < 10 && b == q * S + r && r < S
  {
    assert b == q * S + r;
    if q >= 10 {
      MulLe(10, q, S);
    }
  }

  /** quorem splits what is pending into a digit and a remainder. */
  lemma {:induction false} TakeDigit(b0: nat, S: nat, s: seq<Digit>, h: nat, q: nat, r: nat)
    requires Pending(b0, S, s, h) && DivMod(h, S, q, r)
    ensures q < 10 && Digitized(b0, S, s + [q], r)
    ensures h > 0 && r == 0 ==> q != 0
    ensures S <= h ==> q != 0
  {
    hide Pow, DigitsVal;
    QuotientBelow(h, S, q, r);
    DigitsSnoc(s, q);
    assert (10 * DigitsVal(s) + q) * S == 10 * (DigitsVal(s) * S) + q * S;
    if q == 0 {
      assert q * S == 0;
    }
  }

  /** Multiplying the remainder by ten makes the next digit pending. */
  lemma {:induction false} TenTimesRest(b0: nat, S: nat, s: seq<Digit>, r: nat)
    requires Digitized(b0, S, s, r)
    ensures Pending(b0, S, s, r * 10)
  {
    hide Pow, DigitsVal;
    var p := Pow(10, |s| - 1);
    assert Pow(10, |s|) == 10 * p by { PowAdd(10, 1, |s| - 1); PowOne(10); }
    assert b0 * (10 * p) == 10 * (b0 * p);
  }

  /** The test for zero, valid for both ways of writing it. */
  lemma {:induction false} ZeroTest(b: Bigint)
    requires b.Valid()
    ensures b.x.Length > 0 && (b.x[0] == 0 && b.wds <= 1 <==> b.Value() == 0)
    ensures b.Value() > 0 ==> b.wds > 0
  {
    hide Val, Pow, Weight;
    var s := b.x[..b.wds];
    if b.wds == 0 {
      ValEmpty(s);
    } else if b.wds == 1 {
      ValOneWord(s);
    } else {
      ValTop(s);
    }
  }

  /** Below ten times a normalized divisor, a number has no more words than the divisor. */
  lemma {:induction false} FitsWords(b: Bigint, S: Bigint)
    requires b.Valid() && S.Valid() && Normalized(S) && b.Value() < 10 * S.Value()
    ensures b.wds <= S.wds
  {
    hide Val, Pow, Weight;
    if b.wds > S.wds {
      var s, t, n := b.x[..b.wds], S.x[..S.wds], S.wds - 1;
      ValTop(s);
      ValTop(t);
      MulLe(t[n] as int + 1, 0x1000_0000, Weight(n));
      WeightNext(n);
      WeightMono(n + 1, b.wds - 1);
    }
  }

  /** One digit: quorem on a number below 10 * S. */
  method OneDigit(b: Bigint, S: Bigint) returns (dig: nat)
    requires b.Valid() && S.Valid() && Normalized(S) && Apart(b, S) && b.Value() < 10 * S.Value()
    modifies b`wds, b.x
    ensures b.Valid() && dig < 10 && b.Value() < S.Value() && DivMod(old(b.Value()), S.Value(), dig, b.Value())
  {
    hide Val, Pow, Weight;
    FitsWords(b, S);
    ghost var v := b.Value();
    dig := QuoRem(b, S);
    QuotientBelow(v, S.Value(), dig, b.Value());
  }

  /** The digit loop of modes 2 and 3: at most ilim digits, fewer when nothing remains. */
  method DigitLoop(b0: Bigint, S: Bigint, ilim: int) returns (s: seq<Digit>, b: Bigint)
    requires b0.Valid() && S.Valid() && Normalized(S) && Apart(b0, S) && S.Value() <= b0.Value() < 10 * S.Value()
    modifies b0, b0.x
    ensures b == b0 || (fresh(b) && fresh(b.x))
    ensures b.Valid() && Apart(b, S) && Digitized(old(b0.Value()), S.Value(), s, b.Value())
    ensures s != [] && s[0] != 0 && |s| <= Max(ilim, 1) && (b.Value() > 0 ==> |s| == Max(ilim, 1))
    ensures b.Value() == 0 ==> s[|s| - 1] != 0
  {
    hide Val, Pow, Weight, Bigint.Valid, Bigint.Value, Normalized, Digitized, Pending, DivMod, DigitsVal;
    b := b0;
    ghost var v := b0.Value();
    s := [];
    NothingPrinted(v, S.Value());
    var i := 1;
    while true
      modifies b, b.x
      invariant b == b0 || (fresh(b) && fresh(b.x))
      invariant b.Valid() && Apart(b, S) && 0 < b.Value() < 10 * S.Value() && Pending(v, S.Value(), s, b.Value())
      invariant |s| == i - 1 < Max(ilim, 1) && (i == 1 ==> S.Value() <= b.Value()) && (i > 1 ==> s[0] != 0)
      decreases Max(ilim, 1) - i
    {
      ghost var h := b.Value();
      var dig := OneDigit(b, S);
      TakeDigit(v, S.Value(), s, h, dig, b.Value());
      s := s + [dig];
      ZeroTest(b);
      if (b.x[0] == 0 && b.wds <= 1) || i >= ilim {
        break;
      }
      TenTimesRest(v, S.Value(), s, b.Value());
      b := MultAdd(b, 10, 0);
      i := i + 1;
    }
  }

  /** The digit string and exponent that dtoa leaves: the number is digits * 10^(k + 1 - |digits|). */
  ghost predicate Denotes(s: seq<Digit>, k: int, v: nat, place: int)
  {
    k + 1 - |s| >= place && DigitsVal(s) * Pow(10, k + 1 - |s| - place) == v
  }

  ghost predicate NoTrailingZero(s: seq<Digit>)
  {
    s != [] ==> s[0] != 0 && s[|s| - 1] != 0
  }

  /** Dropping a digit from the right. */
  lemma {:induction false} DropDigit(s: seq<Digit>, n: nat)
    requires 0 < n <= |s|
    ensures DigitsVal(s[..n]) == 10 * DigitsVal(s[..n - 1]) + s[n - 1]
  {
    assert s[..n][..n - 1] == s[..n - 1];
  }

  lemma {:induction false} CarryNine(v: nat, p: nat, total: nat, w: nat)
    requires (v + 1) * p == total && v == 10 * w + 9
    ensures (w + 1) * (10 * p) == total
  {
  }

  /** roundoff: add one unit in the last place; nines become dropped zeros and carry. */
  method RoundOff(s0: seq<Digit>, k0: int) returns (s: seq<Digit>, k: int)
    requires s0 != [] && s0[0] != 0
    ensures NoTrailingZero(s) && s != [] && Denotes(s, k, DigitsVal(s0) + 1, k0 + 1 - |s0|)
    ensures (k == k0 || (s == [1] && k == k0 + 1)) && |s| <= |s0|
  {
    hide Pow, DigitsVal;
    var n := |s0|;
    ghost var p := 1;
    PowOne(10);
    assert s0[..n] == s0;
    while true
      invariant 0 < n <= |s0| && p == Pow(10, |s0| - n)
      invariant (DigitsVal(s0[..n]) + 1) * p == DigitsVal(s0) + 1
      decreases n
    {
      n := n - 1;
      DropDigit(s0, n + 1);
      if s0[n] != 9 {
        break;
      }
      CarryNine(DigitsVal(s0[..n + 1]), p, DigitsVal(s0) + 1, DigitsVal(s0[..n]));
      p := 10 * p;
      PowNext(10, |s0| - n);
      if n == 0 {
        AllNines(p, s0[..0]);
        s, k := [1], k0 + 1;
        return;
      }
    }
    DigitsSnoc(s0[..n], s0[n] + 1);
    s, k := s0[..n] + [s0[n] + 1], k0;
  }

  lemma {:induction false} AllNines(p: nat, none: seq<Digit>)
    requires none == []
    ensures (DigitsVal(none) + 1) * p == DigitsVal([1]) * p
  {
    DigitsSnoc([], 1);
    assert [] + [1] == [1] && DigitsVal([]) == 0;
  }

  lemma {:induction false} DropZero(v: nat, p: nat, total: nat, w: nat)
    requires v * p == total && v == 10 * w
    ensures w * (10 * p) == total
  {
  }

  /** trimzeros: trailing zeros are dropped. */
  method TrimZeros(s0: seq<Digit>, k: int) returns (s: seq<Digit>)
    requires s0 != [] && s0[0] != 0
    ensures NoTrailingZero(s) && 0 < |s| <= |s0| && Denotes(s, k, DigitsVal(s0), k + 1 - |s0|)
  {
    hide Pow, DigitsVal;
    var n := |s0|;
    ghost var p := 1;
    PowOne(10);
    assert s0[..n] == s0;
    while s0[n - 1] == 0
      invariant 0 < n <= |s0| && p == Pow(10, |s0| - n)
      invariant DigitsVal(s0[..n]) * p == DigitsVal(s0)
      decreases n
    {
      DropDigit(s0, n);
      DropZero(DigitsVal(s0[..n]), p, DigitsVal(s0), DigitsVal(s0[..n - 1]));
      n := n - 1;
      p := 10 * p;
      PowNext(10, |s0| - n);
    }
    s := s0[..n];
  }

  /** d correctly rounded at 10^place, ties to even, as a multiple of 10^place. */
  ghost function Rounded(d: Double, place: int): nat
  {
    RoundHalfEven(Num(d.Quarters(), place), Den(place))
  }

  /** n digits of d and their remainder determine d rounded at the place of digit n. */
  lemma {:induction false} RoundingAt(d: Double, b0: nat, S: nat, k: int, s: seq<Digit>, r: nat, n: nat)
    requires Scaled(b0, S, d.Quarters(), k) && Digitized(b0, S, s, r) && (|s| == n || (r == 0 && |s| < n))
    ensures |s| == n ==>
      Rounded(d, k + 1 - n)
      == DigitsVal(s) + if 2 * r > S || (2 * r == S && DigitsVal(s) % 2 == 1) then 1 else 0
    ensures r == 0 ==> Denotes(s, k, Rounded(d, k + 1 - n), k + 1 - n)
  {
    hide Pow, DigitsVal, Num, Den, SameRatio;
    var m := |s|;
    ShiftRatioBy(b0, S, d.Quarters(), k, n - 1);
    RoundSameRatio(b0 * Pow(10, n - 1), S, Num(d.Quarters(), k + 1 - n), Den(k + 1 - n));
    PowOne(10);
    PowAdd(10, m - 1, n - m);
    var p := Pow(10, n - m);
    PaddedDigits(b0, Pow(10, m - 1), p, DigitsVal(s), S, r);
    DivModUnique(b0 * Pow(10, n - 1), S, DigitsVal(s) * p, r);
  }

  lemma {:induction false} PaddedDigits(b0: int, q: int, p: int, v: int, S: int, r: int)
    requires b0 * q == v * S + r && (p == 1 || r == 0)
    ensures b0 * (q * p) == v * p * S + r
  {
    assert b0 * (q * p) == (b0 * q) * p;
    if p != 1 {
      assert v * S * p == v * p * S;
    }
  }

  /** The last digit has the parity of the whole number. */
  lemma {:induction false} LastParity(s: seq<Digit>)
    requires s != []
    ensures DigitsVal(s) % 2 == s[|s| - 1] % 2
  {
  }

  /** Rounding off the last digit: half of S decides, and on a tie the parity of the digit. */
  method Finish(b0: Bigint, S: Bigint, s0: seq<Digit>, k0: int) returns (s: seq<Digit>, k: int)
    requires b0.Valid() && S.Valid() && b0.Value() > 0 && S.Value() > 0 && s0 != [] && s0[0] != 0
    ensures 0 < |s| <= |s0| && NoTrailingZero(s)
    ensures var up := 2 * b0.Value() > S.Value() || (2 * b0.Value() == S.Value() && DigitsVal(s0) % 2 == 1);
            Denotes(s, k, DigitsVal(s0) + (if up then 1 else 0), k0 + 1 - |s0|)
  {
    hide Pow, DigitsVal, Val, Bigint.Valid, Bigint.Value;
    k := k0;
    PowOne(2);
    LastParity(s0);
    var b := LShift(b0, 1);
    PositiveWords(b);
    PositiveWords(S);
    var j := Cmp(b, S);
    if j > 0 || (j == 0 && s0[|s0| - 1] % 2 == 1) {
      s, k := RoundOff(s0, k);
    } else {
      s := TrimZeros(s0, k);
    }
  }

  /** One place further left. */
  lemma {:induction false} TenthRatio(a: nat, s: nat, x: nat, k: int)
    requires Scaled(a, s, x, k)
    ensures Scaled(a, 10 * s, x, k + 1)
  {
    hide Num, Den;
    TenTimes(x, k + 1);
    assert a * (10 * Den(k)) == 10 * (a * Den(k));
    assert 10 * s * Num(x, k + 1) == s * (10 * Num(x, k + 1));
    assert 10 * s * Num(x, k) == 10 * (s * Num(x, k));
  }

  /** A number below 10^(k + 1) rounds to zero at any place above k + 1. */
  lemma {:induction false} BelowPlaces(d: Double, b: nat, S: nat, k: int, place: int)
    requires Scaled(b, S, d.Quarters(), k) && b < 10 * S && k + 1 < place
    ensures Rounded(d, place) == 0
  {
    hide Num, Den, Pow;
    var n: nat := place - k - 1;
    var c := Pow(10, n);
    TenthRatioBy(b, S, d.Quarters(), k, n + 1);
    PowMono(10, 1, n);
    PowOne(10);
    PowAdd(10, 1, n);
    MulLe(10, c, 10 * S);
    var q := S * Pow(10, n + 1);
    assert q == 10 * S * c;
    RoundSameRatio(b, q, Num(d.Quarters(), place), Den(place));
    DivModUnique(b, q, 0, b);
  }

  lemma {:induction false} TenthRatioBy(a: nat, s: nat, x: nat, k: int, n: nat)
    requires Scaled(a, s, x, k)
    ensures Scaled(a, s * Pow(10, n), x, k + n)
    decreases n
  {
    hide Num, Den, Scaled;
    if n > 0 {
      TenthRatioBy(a, s, x, k, n - 1);
      TenthRatio(a, s * Pow(10, n - 1), x, k + n - 1);
      assert 10 * (s * Pow(10, n - 1)) == s * Pow(10, n);
    } else {
      assert s * Pow(10, 0) == s;
    }
  }

  /** Mode 3 when no digit left of the place is asked for: nothing, or a single 1 when d is above half the place. */
  method NoDigits(b: Bigint, S0: Bigint, ilim: int, ndigits: int, k0: int, ghost d: Double)
    returns (s: seq<Digit>, k: int)
    requires b.Valid() && S0.Valid() && Apart(b, S0) && 0 < S0.Value() <= b.Value() < 10 * S0.Value()
    requires Scaled(b.Value(), S0.Value(), d.Quarters(), k0) && ilim == ndigits + k0 + 1 <= 0
    modifies S0, S0.x
    ensures NoTrailingZero(s) && Denotes(s, k, Rounded(d, -ndigits), -ndigits)
  {
    hide DigitsVal, Pow, Val, Bigint.Valid, Bigint.Value, Scaled, Num, Den, Double.Quarters;
    ghost var v, w := b.Value(), S0.Value();
    var empty := ilim < 0;
    if empty {
      BelowPlaces(d, v, w, k0, -ndigits);
    } else {
      OnePlaceAbove(d, v, w, k0);
      PositiveWords(S0);
      PositiveWords(b);
      var S := MultAdd(S0, 5, 0);
      PositiveWords(S);
      var c := Cmp(b, S);
      empty := c <= 0;
    }
    PowOne(10);
    DigitsSnoc([], 1);
    DigitsNone();
    assert [] + [1] == [1];
    if empty {
      s, k := [], -1 - ndigits;
    } else {
      s, k := [1], k0 + 1;
    }
  }

  lemma {:induction false} DigitsNone()
    ensures DigitsVal([]) == 0
  {
  }

  /** At the place just above d, d rounds to one when it is more than half of it. */
  lemma {:induction false} OnePlaceAbove(d: Double, b: nat, S: nat, k: int)
    requires Scaled(b, S, d.Quarters(), k) && S <= b < 10 * S
    ensures Rounded(d, k + 1) == if b > S * 5 then 1 else 0
  {
    hide Num, Den;
    TenthRatio(b, S, d.Quarters(), k);
    RoundSameRatio(b, 10 * S, Num(d.Quarters(), k + 1), Den(k + 1));
    DivModUnique(b, 10 * S, 0, b);
  }

  /** The digits asked for are there: generate them and round the last one off. */
  method SomeDigits(b0: Bigint, S: Bigint, ilim: int, k0: int, ghost d: Double) returns (s: seq<Digit>, k: int)
    requires b0.Valid() && S.Valid() && Normalized(S) && Apart(b0, S) && S.Value() <= b0.Value() < 10 * S.Value()
    requires Scaled(b0.Value(), S.Value(), d.Quarters(), k0) && ilim > 0
    modifies b0, b0.x
    ensures s != [] && NoTrailingZero(s) && |s| <= ilim && Denotes(s, k, Rounded(d, k0 + 1 - ilim), k0 + 1 - ilim)
  {
    hide DigitsVal, Pow, Val, Bigint.Valid, Bigint.Value, Scaled, Num, Den, Double.Quarters, Digitized, Normalized;
    hide NoTrailingZero, Denotes, Rounded;
    ghost var v := b0.Value();
    var b;
    s, b := DigitLoop(b0, S, ilim);
    k := k0;
    RoundingAt(d, v, S.Value(), k0, s, b.Value(), ilim);
    ZeroTest(b);
    if b.x[0] == 0 && b.wds <= 1 {
      EndsWell(s);
    } else {
      s, k := Finish(b, S, s, k);
    }
  }

  lemma {:induction false} EndsWell(s: seq<Digit>)
    requires s != [] && s[0] != 0 && s[|s| - 1] != 0
    ensures NoTrailingZero(s)
  {
  }

  /** What modes 2 and 3 promise: k is floor(log10 d), and the place of the last digit asked for. */
  ghost predicate FixedPlace(d: Double, mode: int, ndigits: int, place: int)
  {
    if mode == 2 then exists k :: FloorLog10(d, k) && place == k + 1 - Max(ndigits, 1)
    else place == -ndigits
  }

  /** dtoa in modes 2 (significant digits) and 3 (digits after the point), on the exact path: the decimal of d
      correctly rounded at the place asked for, ties to even, without trailing zeros. */
  method DtoaFixed(l: FiveList, d: Double, mode: int, ndigits0: int, k0: int, kCheck: bool)
    returns (s: seq<Digit>, decpt: int, ghost place: int)
    requires l.Valid() && d.Positive() && Estimated(d, k0, kCheck) && (mode == 2 || mode == 3)
    modifies l, l.Repr
    ensures FixedPlace(d, mode, ndigits0, place)
    ensures NoTrailingZero(s) && Denotes(s, decpt - 1, Rounded(d, place), place)
    ensures mode == 2 ==> 0 < |s| <= Max(ndigits0, 1)
    ensures l.Valid() && fresh(l.Repr - old(l.Repr))
  {
    hide DigitsVal, Pow, Val, Bigint.Valid, Bigint.Value, Scaled, Num, Den, Double.Quarters, Normalized, FloorLog10;
    hide NoTrailingZero, Denotes, Rounded, FiveList.Valid, Estimated;
    var ndigits := ndigits0;
    var ilim, ilim1;
    if mode == 2 {
      if ndigits <= 0 {
        ndigits := 1;
      }
      ilim, ilim1 := ndigits, ndigits;
    } else {
      ilim := ndigits + k0 + 1;
      ilim1 := ilim - 1;
    }
    var b, S, mhi, k, m2 := Scale(l, d, k0, kCheck, false);
    if k < k0 {
      ilim := ilim1;
    }
    place := k + 1 - ilim;
    if ilim <= 0 && mode == 3 {
      s, k := NoDigits(b, S, ilim, ndigits, k, d);
    } else {
      s, k := SomeDigits(b, S, ilim, k, d);
    }
    decpt := k + 1;
  }
}
