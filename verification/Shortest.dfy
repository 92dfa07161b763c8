/** dtoa's left-right digit generation (modes 0 and 1): the shortest decimal that reads back as d. */
module Shortest {
  import opened Arith
  import opened Words
  import opened Bigints
  import opened PowersOfFive
  import opened Shifts
  import opened Compare
  import opened Quorem
  import opened Doubles
  import opened Decimals
  import opened Scaling
  import opened FixedDigits
  import opened ReadBack

  /** t lies between P - lo and P + hi in units of 1 / S; the ends belong when closed. */
  ghost predicate Inside(P: nat, lo: nat, hi: nat, S: nat, t: nat, closed: bool)
  {
    && (P < t * S + lo || (closed && P == t * S + lo))
    && (t * S < P + hi || (closed && t * S == P + hi))
  }

  /** The remainder is within the low, or the high, half gap. */
  ghost predicate InLow(r: int, lo: int, closed: bool)
  {
    r < lo || (r == lo && closed)
  }

  ghost predicate InHigh(r: int, hi: int, S: int, closed: bool)
  {
    r + hi > S || (r + hi == S && closed)
  }

  datatype Verdict = Continue | Keep | Up

  /** What the stopping tests promise about a remainder. */
  ghost predicate Judged(v: Verdict, r: nat, lo: nat, hi: nat, S: nat, closed: bool)
  {
    match v
    case Continue => !InLow(r, lo, closed) && !InHigh(r, hi, S, closed)
    case Keep => InLow(r, lo, closed)
    case Up => InHigh(r, hi, S, closed)
  }

  /** When both neighbours would do, the nearer one is chosen, and on a tie the even one. */
  ghost predicate Nearer(v: Verdict, r: nat, S: nat, dig: Digit)
  {
    match v
    case Continue => true
    case Keep => 2 * r < S || (2 * r == S && dig % 2 == 0)
    case Up => 2 * r > S || (2 * r == S && dig % 2 == 1)
  }

  /** The choice between two neighbours that would both do. Only a nine raised exactly to the midpoint above
      is taken without comparing. */
  ghost predicate WellChosen(v: Verdict, r: nat, lo: nat, hi: nat, S: nat, dig: Digit, closed: bool)
  {
    InLow(r, lo, closed) && InHigh(r, hi, S, closed) ==>
      if r + hi != S then Nearer(v, r, S, dig) else (v == Keep && 2 * r <= S) || (v == Up && dig == 9)
  }

  /** b against S - mhi. */
  method CompareHigh(b: Bigint, S: Bigint, mhi: Bigint) returns (j1: int)
    requires b.Valid() && S.Valid() && mhi.Valid() && S.Value() > 0 && mhi.Value() > 0
    ensures j1 > 0 <==> b.Value() + mhi.Value() > S.Value()
    ensures j1 == 0 ==> b.Value() + mhi.Value() == S.Value()
    ensures b.Value() > 0 && b.Value() + mhi.Value() == S.Value() ==> j1 == 0
  {
    hide Pow, Val, Bigint.Valid, Bigint.Value;
    PositiveWords(S);
    PositiveWords(mhi);
    ZeroTest(b);
    var delta := Diff(S, mhi);
    j1 := 1;
    if delta.sign == 0 {
      j1 := Cmp(b, delta);
    }
  }

  /** Twice b against S. */
  method CompareTwice(b: Bigint, S: Bigint) returns (j1: int)
    requires b.Valid() && S.Valid() && b.Value() > 0 && S.Value() > 0
    ensures j1 > 0 <==> 2 * b.Value() > S.Value()
    ensures j1 == 0 <==> 2 * b.Value() == S.Value()
  {
    hide Pow, Val, Bigint.Valid, Bigint.Value;
    PowOne(2);
    PositiveWords(S);
    var b2 := LShift(b, 1);
    PositiveWords(b2);
    j1 := Cmp(b2, S);
  }

  /** The tests of the left-right loop on the remainder b: stop below, stop above, or go on. */
  method Judge(b: Bigint, S: Bigint, mlo: Bigint, mhi: Bigint, dig: Digit, closed: bool) returns (v: Verdict)
    requires b.Valid() && S.Valid() && mlo.Valid() && mhi.Valid()
    requires S.Value() > 0 && mlo.Value() > 0 && mhi.Value() > 0
    requires mlo.Value() <= mhi.Value() && b.Value() < S.Value()
    ensures Judged(v, b.Value(), mlo.Value(), mhi.Value(), S.Value(), closed)
    ensures WellChosen(v, b.Value(), mlo.Value(), mhi.Value(), S.Value(), dig, closed)
  {
    hide Pow, Val, Bigint.Valid, Bigint.Value;
    PositiveWords(mlo);
    ZeroTest(b);
    var j := Cmp(b, mlo);
    var j1 := CompareHigh(b, S, mhi);
    if j1 == 0 && closed {
      if dig == 9 {
        return Up;
      }
      return if j > 0 then Up else Keep;
    }
    if j < 0 || (j == 0 && closed) {
      if b.x[0] == 0 && b.wds <= 1 {
        return Keep;
      }
      if j1 > 0 {
        j1 := CompareTwice(b, S);
        if j1 > 0 || (j1 == 0 && dig % 2 == 1) {
          return Up;
        }
      }
      return Keep;
    }
    if j1 > 0 {
      return Up;
    }
    return Continue;
  }

  /** No digit string one place shorter would have done. */
  ghost predicate NoneShorter(P: nat, lo: nat, hi: nat, S: nat, closed: bool)
  {
    forall t: nat {:trigger Inside(P, lo, hi, S, 10 * t, closed)} :: !Inside(P, lo, hi, S, 10 * t, closed)
  }

  /** Going on means that neither neighbour one place up lies inside, and then nothing at that place does. */
  lemma {:induction false} ContinueMeans(P: nat, lo: nat, hi: nat, S: nat, v: nat, h: nat, closed: bool)
    requires P == 10 * (v * S) + h && h < 10 * S
    requires !InLow(h, lo, closed) && !InHigh(h, hi, 10 * S, closed)
    ensures NoneShorter(P, lo, hi, S, closed)
  {
    forall t: nat
      ensures !Inside(P, lo, hi, S, 10 * t, closed)
    {
      assert 10 * t * S == 10 * (t * S);
      assert (v + 1) * S == v * S + S;
      if t <= v {
        MulLe(t, v, S);
      } else {
        MulLe(v + 1, t, S);
      }
    }
  }

  /** Keeping or raising the last digit lands inside. */
  lemma {:induction false} StopMeans(P: nat, lo: nat, hi: nat, S: nat, u: nat, r: nat, v: Verdict, closed: bool)
    requires P == u * S + r && r < S && lo > 0 && hi > 0 && v != Continue && Judged(v, r, lo, hi, S, closed)
    ensures Inside(P, lo, hi, S, if v == Keep then u else u + 1, closed)
  {
    assert (u + 1) * S == u * S + S;
  }

  /** At most one of ten consecutive endings: a digit that stops cannot be a zero kept or a nine raised. */
  lemma {:induction false} StopDigit(h: nat, r: nat, dig: nat, lo: nat, hi: nat, S: nat, v: Verdict, closed: bool)
    requires h == dig * S + r && !InLow(h, lo, closed) && !InHigh(h, hi, 10 * S, closed)
    requires Judged(v, r, lo, hi, S, closed)
    ensures v == Keep ==> dig != 0
    ensures v == Up ==> dig != 9
  {
    if dig == 0 {
      assert dig * S == 0;
    } else if dig == 9 {
      assert dig * S == 9 * S;
    }
  }

  /** By the seventeenth digit the gap is wider than the last place, so a stopping test succeeds. */
  lemma {:induction false} SeventeenEnough(r: nat, lo: nat, hi: nat, S: nat, p: nat, closed: bool)
    requires 0x40_0000_0000_0000 * lo >= S * p && p >= 1_0000_0000_0000_0000 && lo <= hi && S > 0
    ensures InLow(r, lo, closed) || InHigh(r, hi, S, closed)
  {
    MulLe(1_0000_0000_0000_0000, p, S);
    assert 2 * lo > S;
  }

  lemma {:induction false} TenToSixteen(n: nat)
    requires n >= 16
    ensures Pow(10, n) >= 1_0000_0000_0000_0000
  {
    PowMono(10, 16, n);
    assert Pow(10, 4) == 1_0000;
    PowAdd(10, 4, 4);
    PowAdd(10, 8, 8);
  }

  /** The half gaps after n multiplications by ten; d has at most 53 bits, so lo is at least 2^-54 of S's scale. */
  ghost predicate Gaps(lo0: nat, hi0: nat, S: nat, n: nat, lo: nat, hi: nat)
  {
    && lo == lo0 * Pow(10, n) && hi == hi0 * Pow(10, n) && 0 < lo <= hi
    && 0x40_0000_0000_0000 * lo >= S * Pow(10, n)
  }

  lemma {:induction false} GapsStep(lo0: nat, hi0: nat, S: nat, n: nat, lo: nat, hi: nat)
    requires Gaps(lo0, hi0, S, n, lo, hi)
    ensures Gaps(lo0, hi0, S, n + 1, lo * 10, hi * 10)
  {
    hide Pow;
    PowNext(10, n + 1);
    var p := Pow(10, n);
    assert lo0 * p * 10 == lo0 * (10 * p) && hi0 * p * 10 == hi0 * (10 * p) && S * p * 10 == S * (10 * p);
  }

  /** Interval and quotient of the loop, all multiplied by ten for each digit printed. */
  ghost predicate Generating(b0: nat, lo0: nat, hi0: nat, S: nat, s: seq<Digit>, h: nat, lo: nat, hi: nat, closed: bool)
  {
    && Pending(b0, S, s, h) && Gaps(lo0, hi0, S, |s|, lo, hi)
    && (s == [] ==> S <= h)
    && (s != [] ==> s[0] != 0 && !InLow(h, lo, closed) && !InHigh(h, hi, 10 * S, closed))
  }

  lemma {:induction false} GenerateStart(b0: nat, lo: nat, hi: nat, S: nat, closed: bool)
    requires S <= b0 < 10 * S && 0 < lo <= hi && 0x40_0000_0000_0000 * lo >= b0
    ensures Generating(b0, lo, hi, S, [], b0, lo, hi, closed)
  {
    NothingPrinted(b0, S);
    PowOne(10);
  }

  lemma {:induction false} AtMostSeventeen(lo0: nat, hi0: nat, S: nat, n: nat, lo: nat, hi: nat, r: nat, closed: bool)
    requires Gaps(lo0, hi0, S, n, lo, hi) && S > 0 && Judged(Continue, r, lo, hi, S, closed)
    ensures n < 16
  {
    hide Pow;
    if n >= 16 {
      TenToSixteen(n);
      SeventeenEnough(r, lo, hi, S, Pow(10, n), closed);
    }
  }

  /** A digit that does not stop the loop. */
  lemma {:induction false} GenerateStep(b0: nat, lo0: nat, hi0: nat, S: nat, s: seq<Digit>, h: nat, lo: nat, hi: nat,
      closed: bool, dig: Digit, r: nat)
    requires Generating(b0, lo0, hi0, S, s, h, lo, hi, closed) && DivMod(h, S, dig, r)
    requires Judged(Continue, r, lo, hi, S, closed)
    ensures Generating(b0, lo0, hi0, S, s + [dig], r * 10, lo * 10, hi * 10, closed)
    ensures |s| < 16
  {
    hide Pow, Pending, DigitsVal, Gaps, DivMod;
    TakeDigit(b0, S, s, h, dig, r);
    TenTimesRest(b0, S, s + [dig], r);
    GapsStep(lo0, hi0, S, |s|, lo, hi);
    AtMostSeventeen(lo0, hi0, S, |s|, lo, hi, r, closed);
  }

  /** No number inside is nearer to P / S than t, except that a first digit nine may have been raised to the midpoint.
      */
  ghost predicate Closest(P: nat, lo: nat, hi: nat, S: nat, i: nat, t: nat, closed: bool)
  {
    (i == 1 && t * S == P + hi)
    || forall u: nat {:trigger Inside(P, lo, hi, S, u, closed)} | Inside(P, lo, hi, S, u, closed) ::
         Distance(P, S, t) <= Distance(P, S, u)
  }

  lemma {:induction false} ChoiceMeans(P: nat, lo: nat, hi: nat, S: nat, i: nat, u: nat, r: nat, dig: Digit,
      v: Verdict, closed: bool)
    requires P == u * S + r && r < S && v != Continue && Judged(v, r, lo, hi, S, closed)
    requires WellChosen(v, r, lo, hi, S, dig, closed) && (v == Up && dig == 9 ==> i == 1)
    ensures Closest(P, lo, hi, S, i, if v == Keep then u else u + 1, closed)
  {
    assert (u + 1) * S == u * S + S;
    forall w: nat | Inside(P, lo, hi, S, w, closed)
      ensures v == Keep ==> Distance(P, S, u) <= Distance(P, S, w)
      ensures v == Up && !(i == 1 && (u + 1) * S == P + hi) ==> Distance(P, S, u + 1) <= Distance(P, S, w)
    {
      if w <= u {
        MulLe(w, u, S);
      } else {
        MulLe(u + 1, w, S);
      }
    }
  }

  /** What stopping leaves: t is the number printed, i its place, and nothing shorter would have done. */
  ghost predicate Stopped(b0: nat, lo0: nat, hi0: nat, S: nat, i: nat, t: nat, closed: bool)
  {
    && 1 <= i <= 17
    && Inside(b0 * Pow(10, i - 1), lo0 * Pow(10, i - 1), hi0 * Pow(10, i - 1), S, t, closed)
    && (i > 1 ==> NoneShorter(b0 * Pow(10, i - 1), lo0 * Pow(10, i - 1), hi0 * Pow(10, i - 1), S, closed))
    && Closest(b0 * Pow(10, i - 1), lo0 * Pow(10, i - 1), hi0 * Pow(10, i - 1), S, i, t, closed)
  }

  lemma {:induction false} StopStep(b0: nat, lo0: nat, hi0: nat, S: nat, s: seq<Digit>, h: nat, lo: nat, hi: nat,
      closed: bool, dig: Digit, r: nat, v: Verdict) returns (t: nat)
    requires Generating(b0, lo0, hi0, S, s, h, lo, hi, closed) && DivMod(h, S, dig, r)
    requires v != Continue && Judged(v, r, lo, hi, S, closed) && WellChosen(v, r, lo, hi, S, dig, closed) && |s| <= 16
    ensures t == DigitsVal(s + [dig]) + (if v == Keep then 0 else 1)
    ensures Stopped(b0, lo0, hi0, S, |s| + 1, t, closed)
    ensures v == Keep ==> dig != 0
    ensures v == Up && dig == 9 ==> s == []
  {
    hide Pow, DigitsVal, Inside, Judged, InLow, InHigh, NoneShorter, DivMod, WellChosen, Closest;
    var p := Pow(10, |s|);
    TakeDigit(b0, S, s, h, dig, r);
    DigitsSnoc(s, dig);
    t := DigitsVal(s + [dig]) + (if v == Keep then 0 else 1);
    QuotientBelow(h, S, dig, r);
    StopMeans(b0 * p, lo, hi, S, DigitsVal(s + [dig]), r, v, closed);
    if s != [] {
      ContinueMeans(b0 * p, lo, hi, S, DigitsVal(s), h, closed);
      StopDigit(h, r, dig, lo, hi, S, v, closed);
    }
    ChoiceMeans(b0 * p, lo, hi, S, |s| + 1, DigitsVal(s + [dig]), r, dig, v, closed);
  }

  /** The numbers of the loop share no memory, except that mlo and mhi may be one object. */
  ghost predicate Separate(b: Bigint, S: Bigint, mlo: Bigint, mhi: Bigint)
  {
    && Apart(b, S) && Apart(b, mlo) && Apart(b, mhi) && Apart(S, mlo) && Apart(S, mhi)
    && (mlo == mhi || Apart(mlo, mhi))
  }

  /** Multiplying both half gaps by ten; when they are one number, once. */
  method TenTimesGaps(mlo0: Bigint, mhi0: Bigint) returns (mlo: Bigint, mhi: Bigint)
    requires mlo0.Valid() && mhi0.Valid() && (mlo0 == mhi0 || Apart(mlo0, mhi0))
    modifies mlo0, mlo0.x, mhi0, mhi0.x
    ensures mlo == mlo0 || (fresh(mlo) && fresh(mlo.x))
    ensures mhi == mhi0 || (fresh(mhi) && fresh(mhi.x))
    ensures mlo.Valid() && mhi.Valid() && (mlo == mhi || Apart(mlo, mhi))
    ensures mlo.Value() == old(mlo0.Value()) * 10 && mhi.Value() == old(mhi0.Value()) * 10
  {
    hide Pow, Val, Bigint.Valid, Bigint.Value;
    if mlo0 == mhi0 {
      mhi := MultAdd(mhi0, 10, 0);
      mlo := mhi;
    } else {
      mlo := MultAdd(mlo0, 10, 0);
      mhi := MultAdd(mhi0, 10, 0);
    }
  }

  /** One place further: the remainder and both half gaps times ten. */
  method Advance(b0: Bigint, S: Bigint, mlo0: Bigint, mhi0: Bigint) returns (b: Bigint, mlo: Bigint, mhi: Bigint)
    requires b0.Valid() && mlo0.Valid() && mhi0.Valid() && Separate(b0, S, mlo0, mhi0)
    modifies b0, b0.x, mlo0, mlo0.x, mhi0, mhi0.x
    ensures b == b0 || (fresh(b) && fresh(b.x))
    ensures mlo == mlo0 || (fresh(mlo) && fresh(mlo.x))
    ensures mhi == mhi0 || (fresh(mhi) && fresh(mhi.x))
    ensures b.Valid() && mlo.Valid() && mhi.Valid() && Separate(b, S, mlo, mhi)
    ensures b.Value() == old(b0.Value()) * 10
    ensures mlo.Value() == old(mlo0.Value()) * 10 && mhi.Value() == old(mhi0.Value()) * 10
  {
    hide Pow, Val, Bigint.Valid, Bigint.Value;
    b := MultAdd(b0, 10, 0);
    mlo, mhi := TenTimesGaps(mlo0, mhi0);
  }

  /** One digit and the verdict on it. */
  method DigitAndVerdict(b: Bigint, S: Bigint, mlo: Bigint, mhi: Bigint, closed: bool, ghost g: (nat, nat, nat),
      ghost s: seq<Digit>)
    returns (dig: Digit, v: Verdict)
    requires b.Valid() && S.Valid() && Normalized(S) && mlo.Valid() && mhi.Valid() && Separate(b, S, mlo, mhi)
    requires S.Value() > 0
    requires Generating(g.0, g.1, g.2, S.Value(), s, b.Value(), mlo.Value(), mhi.Value(), closed)
    modifies b`wds, b.x
    ensures b.Valid() && DivMod(old(b.Value()), S.Value(), dig, b.Value())
    ensures Judged(v, b.Value(), mlo.Value(), mhi.Value(), S.Value(), closed)
    ensures WellChosen(v, b.Value(), mlo.Value(), mhi.Value(), S.Value(), dig, closed)
  {
    hide Pow, Val, Bigint.Valid, Bigint.Value, Normalized, Generating, Judged, DivMod, WellChosen;
    GeneratingFacts(g.0, g.1, g.2, S.Value(), s, b.Value(), mlo.Value(), mhi.Value(), closed);
    dig := OneDigit(b, S);
    v := Judge(b, S, mlo, mhi, dig, closed);
  }

  /** The left-right loop: digits until a stopping test succeeds. */
  method LeftRight(b0: Bigint, S: Bigint, mlo0: Bigint, mhi0: Bigint, closed: bool, k0: int)
    returns (s: seq<Digit>, k: int, ghost i: nat, ghost t: nat)
    requires b0.Valid() && S.Valid() && Normalized(S) && mlo0.Valid() && mhi0.Valid() && Separate(b0, S, mlo0, mhi0)
    requires 0 < S.Value() <= b0.Value() < 10 * S.Value() && 0 < mlo0.Value() <= mhi0.Value()
    requires 0x40_0000_0000_0000 * mlo0.Value() >= b0.Value()
    modifies b0, b0.x, mlo0, mlo0.x, mhi0, mhi0.x
    ensures Stopped(old(b0.Value()), old(mlo0.Value()), old(mhi0.Value()), S.Value(), i, t, closed)
    ensures |s| == i && NoTrailingZero(s) && Denotes(s, k, t, k0 + 1 - i)
    ensures k == k0 || (k == k0 + 1 && i == 1)
  {
    hide Pow, Val, Bigint.Valid, Bigint.Value, Normalized, Generating, Judged, DivMod, Stopped, WellChosen;
    hide DigitsVal, Denotes, NoTrailingZero;
    var b, mlo, mhi := b0, mlo0, mhi0;
    ghost var B, L, H := b.Value(), mlo.Value(), mhi.Value();
    s, k := [], k0;
    GenerateStart(B, L, H, S.Value(), closed);
    while true
      modifies b, b.x, mlo, mlo.x, mhi, mhi.x
      invariant b == b0 || (fresh(b) && fresh(b.x))
      invariant mlo == mlo0 || (fresh(mlo) && fresh(mlo.x))
      invariant mhi == mhi0 || (fresh(mhi) && fresh(mhi.x))
      invariant b.Valid() && mlo.Valid() && mhi.Valid() && Separate(b, S, mlo, mhi)
      invariant Generating(B, L, H, S.Value(), s, b.Value(), mlo.Value(), mhi.Value(), closed)
      invariant |s| <= 16 && k == k0
      decreases 16 - |s|
    {
      ghost var h := b.Value();
      GeneratingFacts(B, L, H, S.Value(), s, h, mlo.Value(), mhi.Value(), closed);
      var dig, v := DigitAndVerdict(b, S, mlo, mhi, closed, (B, L, H), s);
      if v != Continue {
        t := StopStep(B, L, H, S.Value(), s, h, mlo.Value(), mhi.Value(), closed, dig, b.Value(), v);
        i := |s| + 1;
        s, k := LastDigit(s, dig, v, k);
        return;
      }
      GenerateStep(B, L, H, S.Value(), s, h, mlo.Value(), mhi.Value(), closed, dig, b.Value());
      s := s + [dig];
      b, mlo, mhi := Advance(b, S, mlo, mhi);
    }
  }

  lemma {:induction false} GeneratingFacts(b0: nat, lo0: nat, hi0: nat, S: nat, s: seq<Digit>, h: nat, lo: nat,
      hi: nat, closed: bool)
    requires Generating(b0, lo0, hi0, S, s, h, lo, hi, closed)
    ensures h < 10 * S && 0 < lo <= hi && (s != [] ==> s[0] != 0) && (s == [] ==> S <= h)
  {
  }

  /** Storing the last digit: kept, raised, or for a nine carried into the next place. */
  method LastDigit(s0: seq<Digit>, dig: Digit, v: Verdict, k0: int) returns (s: seq<Digit>, k: int)
    requires v != Continue && (s0 != [] ==> s0[0] != 0)
    requires (v == Keep ==> dig != 0) && (v == Up && dig == 9 ==> s0 == [])
    ensures |s| == |s0| + 1 && NoTrailingZero(s)
    ensures Denotes(s, k, DigitsVal(s0 + [dig]) + (if v == Keep then 0 else 1), k0 - |s0|)
    ensures k == k0 || (k == k0 + 1 && s0 == [])
  {
    hide Pow, DigitsVal;
    k := k0;
    PowOne(10);
    if v == Up {
      if dig == 9 {
        s, k := RoundOff(s0 + [9], k);
      } else {
        s := s0 + [dig + 1];
        DigitsSnoc(s0, dig);
        DigitsSnoc(s0, dig + 1);
      }
    } else {
      s := s0 + [dig];
    }
  }

  /** The loop's interval, in units of 1 / S, is the interval around d at the place 10^e. */
  lemma {:induction false} InsideMeans(d: Double, P: nat, lo: nat, hi: nat, S: nat, t: nat, e: int, closed: bool)
    requires d.Positive() && S > 0
    requires Scaled(P, S, d.Quarters(), e) && Scaled(lo, S, d.HalfGapBelow(), e) && Scaled(hi, S, d.HalfGapAbove(), e)
    ensures Inside(P, lo, hi, S, t, closed) <==> ReadsAs(d, t, e, closed)
  {
    hide Num, Den, Double.Quarters, Double.HalfGapAbove, Double.HalfGapBelow, Double.Positive, Low, High;
    MidpointNums(d, e);
    CommonFactor(P, S, Num(d.Quarters(), e), lo, Num(d.HalfGapBelow(), e), hi, Num(d.HalfGapAbove(), e), Den(e), t);
  }

  lemma {:induction false} CommonFactor(p: nat, s: nat, n: nat, lo: nat, nb: nat, hi: nat, na: nat, m: nat, t: nat)
    requires s > 0 && m > 0 && p * m == s * n && lo * m == s * nb && hi * m == s * na
    ensures p < t * s + lo <==> n - nb < t * m
    ensures p == t * s + lo <==> n - nb == t * m
    ensures t * s < p + hi <==> t * m < n + na
    ensures t * s == p + hi <==> t * m == n + na
  {
    assert (t * s + lo) * m == s * (t * m + nb);
    assert (p + hi) * m == s * (n + na);
    assert t * s * m == s * (t * m);
    Cancel(p, m, n, s, t * s + lo, t * m + nb);
    Cancel(t * s, m, t * m, s, p + hi, n + na);
  }

  lemma {:induction false} Cancel(a: nat, m: nat, b: nat, s: nat, c: nat, e: nat)
    requires s > 0 && m > 0 && a * m == s * b && c * m == s * e
    ensures a < c <==> b < e
    ensures a == c <==> b == e
  {
    if a < c {
      MulLt(a, c, m);
      MulCancelLt(b, e, s);
    } else if a > c {
      MulLt(c, a, m);
      MulCancelLt(e, b, s);
    } else {
      MulCancelLe(b, e, s);
      MulCancelLe(e, b, s);
    }
  }

  /** No decimal with fewer than n digits lies in the interval around d. */
  ghost predicate Fewest(d: Double, n: nat, closed: bool)
    requires n > 0
  {
    forall t: nat, e: int | t < Pow(10, n - 1) :: !ReadsAs(d, t, e, closed)
  }

  /** No decimal with fewer than n digits is turned into d. */
  ghost predicate NoneShorterRounds(d: Double, n: nat, ties: bool)
    requires n > 0
  {
    forall t: nat, e: int | t < Pow(10, n - 1) :: !RoundsTo(d, t, e, ties)
  }

  lemma {:induction false} FewestRounds(d: Double, n: nat, closed: bool)
    requires d.Positive() && n > 0 && Fewest(d, n, closed)
    ensures NoneShorterRounds(d, n, closed)
  {
    hide ReadsAs, RoundsTo, Pow, Double.Positive;
    forall t: nat, e: int | t < Pow(10, n - 1)
      ensures !RoundsTo(d, t, e, closed)
    {
      ReadsExactly(d, t, e, closed);
    }
  }

  ghost predicate NoneReads(d: Double, e: int, closed: bool)
  {
    forall t: nat :: !ReadsAs(d, t, e, closed)
  }

  /** A decimal too short to reach the place above is below 10^k, and then 10^k itself lies inside as well. */
  lemma {:induction false} RoundPower(d: Double, t: nat, e: int, k: int, n: nat, closed: bool)
    requires d.Positive() && FloorLog10(d, k) && ReadsAs(d, t, e, closed)
    requires n > 1 && t < Pow(10, n - 1) && e <= k + 1 - n
    ensures ReadsAs(d, Pow(10, n - 2), k + 2 - n, closed)
  {
    hide Num, Den, Pow, Double.Quarters, Double.HalfGapAbove, Double.HalfGapBelow, Double.Positive, Low, High;
    var m: nat := k - e;
    var T := Pow(10, m);
    PowMono(10, n - 1, m);
    MidpointNums(d, e);
    PowerBelow(d.Quarters(), k, m);
    MulLt(t, T, Den(e));
    assert ReadsAs(d, T, e, closed);
    PowSplit(10, n - 2, m);
    ReadsShifted(d, Pow(10, n - 2), k + 2 - n, closed, m - (n - 2));
  }

  lemma {:induction false} PowerBelow(x: nat, k: int, m: nat)
    requires Den(k) <= Num(x, k)
    ensures Pow(10, m) * Den(k - m) <= Num(x, k - m)
    decreases m
  {
    hide Num, Den;
    if m == 0 {
      assert Pow(10, 0) * Den(k) == Den(k);
    } else {
      PowerBelow(x, k, m - 1);
      SameDecimal(Pow(10, m - 1), k - m + 1, x);
      assert 10 * Pow(10, m - 1) == Pow(10, m);
    }
  }

  lemma {:induction false} ZeroOutside(d: Double, e: int, closed: bool)
    requires d.Positive()
    ensures !ReadsAs(d, 0, e, closed)
  {
    hide Num, Den, Double.Quarters, Double.HalfGapAbove, Double.HalfGapBelow, Double.Positive, Low, High;
    MidpointNums(d, e);
  }

  lemma {:induction false} FewerDigitsFail(d: Double, k: int, n: nat, closed: bool)
    requires d.Positive() && FloorLog10(d, k) && n > 0
    requires n > 1 ==> NoneReads(d, k + 2 - n, closed)
    ensures Fewest(d, n, closed)
  {
    hide Num, Den, Double.Quarters, Double.Positive, ReadsAs, FloorLog10;
    PowOne(10);
    forall t: nat, e: int | t < Pow(10, n - 1)
      ensures !ReadsAs(d, t, e, closed)
    {
      if n == 1 {
        ZeroOutside(d, e, closed);
      } else if e >= k + 2 - n {
        ReadsShifted(d, t, e, closed, e - (k + 2 - n));
      } else if ReadsAs(d, t, e, closed) {
        RoundPower(d, t, e, k, n, closed);
      }
    }
  }

  /** Of the decimals with the last digit at 10^e that read back as d, t * 10^e is a nearest one. */
  ghost predicate NearestAt(d: Double, t: nat, e: int, closed: bool)
  {
    forall u: nat | ReadsAs(d, u, e, closed) :: Gap(d, t, e) <= Gap(d, u, e)
  }

  lemma {:induction false} ClosestMeans(d: Double, P: nat, lo: nat, hi: nat, S: nat, i: nat, t: nat, e: int,
      closed: bool)
    requires d.Positive() && S > 0 && Closest(P, lo, hi, S, i, t, closed)
    requires Scaled(P, S, d.Quarters(), e) && Scaled(lo, S, d.HalfGapBelow(), e) && Scaled(hi, S, d.HalfGapAbove(), e)
    ensures NearestAt(d, t, e, closed) || (i == 1 && t * Den(e) == Num(High(d), e))
  {
    hide Num, Den, Double.Quarters, Double.HalfGapAbove, Double.HalfGapBelow, Double.Positive, Low, High, Inside;
    hide ReadsAs;
    MidpointNums(d, e);
    CommonFactor(P, S, Num(d.Quarters(), e), lo, Num(d.HalfGapBelow(), e), hi, Num(d.HalfGapAbove(), e), Den(e), t);
    if !(i == 1 && t * S == P + hi) {
      forall u: nat | ReadsAs(d, u, e, closed)
        ensures Gap(d, t, e) <= Gap(d, u, e)
      {
        InsideMeans(d, P, lo, hi, S, u, e, closed);
        GapOrder(P, S, Num(d.Quarters(), e), Den(e), t, u);
      }
    }
  }

  lemma {:induction false} GapOrder(p: nat, s: nat, n: nat, m: nat, t: nat, u: nat)
    requires s > 0 && m > 0 && p * m == s * n && Distance(p, s, t) <= Distance(p, s, u)
    ensures Distance(n, m, t) <= Distance(n, m, u)
  {
    DistanceScaled(p, s, n, m, t);
    DistanceScaled(p, s, n, m, u);
    MulLe(Distance(p, s, t), Distance(p, s, u), m);
    MulCancelLe(Distance(n, m, t), Distance(n, m, u), s);
  }

  lemma {:induction false} DistanceScaled(p: nat, s: nat, n: nat, m: nat, t: nat)
    requires s > 0 && m > 0 && p * m == s * n
    ensures Distance(p, s, t) * m == Distance(n, m, t) * s
  {
    assert t * s * m == t * m * s;
    assert (p - t * s) * m == (n - t * m) * s;
    Cancel(t * s, m, t * m, s, p, n);
  }

  /** What the loop stops with, said of d: the number printed reads back as d, and none with fewer digits does. */
  lemma {:induction false} StoppedMeans(d: Double, b0: nat, lo0: nat, hi0: nat, S: nat, i: nat, t: nat, k: int,
      closed: bool)
    requires d.Positive() && FloorLog10(d, k) && S > 0 && Stopped(b0, lo0, hi0, S, i, t, closed)
    requires Scaled(b0, S, d.Quarters(), k)
    requires Scaled(lo0, S, d.HalfGapBelow(), k) && Scaled(hi0, S, d.HalfGapAbove(), k)
    ensures ReadsAs(d, t, k + 1 - i, closed) && Fewest(d, i, closed)
    ensures NearestAt(d, t, k + 1 - i, closed) || (i == 1 && t * Den(k + 1 - i) == Num(High(d), k + 1 - i))
  {
    hide Num, Den, Double.Quarters, Double.HalfGapAbove, Double.HalfGapBelow, Double.Positive, Inside, FloorLog10;
    hide ReadsAs, Fewest;
    hide SameRatio, Closest, NearestAt, High;
    var P, lo, hi := b0 * Pow(10, i - 1), lo0 * Pow(10, i - 1), hi0 * Pow(10, i - 1);
    var e, above := k + 1 - i, k + 2 - i;
    ShiftRatioBy(b0, S, d.Quarters(), k, i - 1);
    ShiftRatioBy(lo0, S, d.HalfGapBelow(), k, i - 1);
    ShiftRatioBy(hi0, S, d.HalfGapAbove(), k, i - 1);
    InsideMeans(d, P, lo, hi, S, t, e, closed);
    ClosestMeans(d, P, lo, hi, S, i, t, e, closed);
    if i > 1 {
      forall u: nat
        ensures !ReadsAs(d, u, above, closed)
      {
        assert !Inside(P, lo, hi, S, 10 * u, closed);
        InsideMeans(d, P, lo, hi, S, 10 * u, e, closed);
        PowOne(10);
        ReadsShifted(d, u, above, closed, 1);
      }
      assert NoneReads(d, above, closed);
    }
    FewerDigitsFail(d, k, i, closed);
  }

  /** mlo and mhi from the power that Scale left: equal, or for a power of two mhi twice mlo. */
  method MakeGaps(l: FiveList, mhi0: Bigint, m2: nat, twice: bool) returns (mlo: Bigint, mhi: Bigint)
    requires l.Valid() && mhi0.Valid() && mhi0.Value() > 0 && l.Apart(mhi0)
    ensures mlo == mhi0 || (fresh(mlo) && fresh(mlo.x))
    ensures mhi == mlo || (fresh(mhi) && fresh(mhi.x) && Apart(mlo, mhi))
    ensures mlo.Valid() && mhi.Valid() && mlo.Value() == mhi0.Value() * Pow(2, m2) > 0
    ensures mhi.Value() == mlo.Value() * (if twice then 2 else 1)
  {
    hide Pow, Val;
    mlo := ShiftUp(mhi0, m2);
    mhi := mlo;
    if twice {
      mhi := new Bigint.Balloc(mlo.k);
      Bcopy(mhi, mlo);
      PositiveWords(mlo);
      assert mhi.x[mhi.wds - 1] == mhi.x[..mhi.wds][mhi.wds - 1] == mlo.x[..mlo.wds][mlo.wds - 1];
      PowOne(2);
      mhi := LShift(mhi, 1);
    }
  }

  /** dtoa in modes 0 and 1 on the exact path: at most seventeen digits, without trailing zeros, that read back as d
      (mode 0 counts on a reader that decides ties for an even significand), and no decimal with fewer digits does. */
  method DtoaShortest(l: FiveList, d: Double, mode: int, k0: int, kCheck: bool)
    returns (s: seq<Digit>, decpt: int, ghost t: nat, ghost e: int)
    requires l.Valid() && d.Positive() && Estimated(d, k0, kCheck) && (mode == 0 || mode == 1)
    modifies l, l.Repr
    ensures 1 <= |s| <= 17 && NoTrailingZero(s) && Denotes(s, decpt - 1, t, e)
    ensures RoundsTo(d, t, e, mode == 0 && d.Mantissa() % 2 == 0)
    ensures NoneShorterRounds(d, |s|, mode == 0 && d.Mantissa() % 2 == 0)
    ensures NearestAt(d, t, e, mode == 0 && d.Mantissa() % 2 == 0) || (|s| == 1 && t * Den(e) == Num(High(d), e))
    ensures l.Valid() && fresh(l.Repr - old(l.Repr))
  {
    hide DigitsVal, Pow, Val, Bigint.Valid, Bigint.Value, Scaled, Num, Den, Normalized, FloorLog10;
    hide Double.Quarters, Double.Ulp, NoTrailingZero, Denotes, FiveList.Valid, Estimated, ReadsAs, Fewest, RoundsTo;
    hide NearestAt, High, NoneShorterRounds;
    var b, S, mhi, k, m2 := Scale(l, d, k0, kCheck, true);
    var mlo;
    mlo, mhi := MakeGaps(l, mhi, m2, d.PowerOfTwo());
    var closed := mode != 1 && d.w1 % 2 == 0;
    EvenMantissa(d);
    GapsRatio(d, b.Value(), S.Value(), mlo.Value(), mhi.Value(), k);
    ghost var B, L, H := b.Value(), mlo.Value(), mhi.Value();
    ghost var i;
    ghost var kf := k;
    s, k, i, t := LeftRight(b, S, mlo, mhi, closed, k);
    e := kf + 1 - i;
    StoppedMeans(d, B, L, H, S.Value(), i, t, kf, closed);
    StoppedBound(B, L, H, S.Value(), i, t, closed);
    ReadsExactly(d, t, e, closed);
    FewestRounds(d, i, closed);
    decpt := k + 1;
  }

  lemma {:induction false} StoppedBound(b0: nat, lo0: nat, hi0: nat, S: nat, i: nat, t: nat, closed: bool)
    requires Stopped(b0, lo0, hi0, S, i, t, closed)
    ensures 1 <= i <= 17
  {
  }

  lemma {:induction false} EvenMantissa(d: Double)
    ensures d.Mantissa() % 2 == d.w1 % 2
  {
    var h: int := d.w0 % 0x10_0000;
    assert d.Fraction() == 2 * (0x8000_0000 * h) + d.w1;
    SameParity(d.Fraction(), 0x8000_0000 * h, d.w1);
    SameParity(d.Mantissa(), if d.ExpField() == 0 then 0 else 0x8_0000_0000_0000, d.Fraction());
  }

  lemma {:induction false} SameParity(a: int, q: int, r: int)
    requires a == 2 * q + r
    ensures a % 2 == r % 2
  {
  }

  /** The gap above is the gap below, doubled for a power of two; and d has at most 53 significant bits. */
  lemma {:induction false} GapsRatio(d: Double, b: nat, S: nat, lo: nat, hi: nat, k: int)
    requires d.Positive() && S > 0 && Scaled(b, S, d.Quarters(), k) && Scaled(lo, S, d.HalfGapBelow(), k)
    requires hi == lo * (if d.PowerOfTwo() then 2 else 1)
    ensures Scaled(hi, S, d.HalfGapAbove(), k) && 0x40_0000_0000_0000 * lo >= b && lo <= hi
  {
    hide Num, Den, Double.Quarters, Double.Positive, Double.Ulp, Double.PowerOfTwo, SameRatio;
    GapsFit(d);
    DoubleRatio(lo, S, d.HalfGapBelow(), k);
    FiftyFour(b, S, d.Quarters(), lo, d.HalfGapBelow(), k);
  }

  lemma {:induction false} DoubleRatio(a: nat, s: nat, x: nat, k: int)
    requires Scaled(a, s, x, k)
    ensures Scaled(2 * a, s, 2 * x, k)
  {
    hide Num, Den;
    NumTimes(2, x, k);
    assert 2 * a * Den(k) == 2 * (a * Den(k)) && s * (2 * Num(x, k)) == 2 * (s * Num(x, k));
  }

  lemma {:induction false} FiftyFour(b: nat, S: nat, q: nat, lo: nat, x: nat, k: int)
    requires Scaled(b, S, q, k) && Scaled(lo, S, x, k) && q <= 0x40_0000_0000_0000 * x
    ensures 0x40_0000_0000_0000 * lo >= b
  {
    hide Num, Den;
    var c := 0x40_0000_0000_0000;
    NumMono(q, c * x, k);
    NumTimes(c, x, k);
    RatioLe(b, S, Num(q, k), lo, Num(x, k), Den(k), c);
  }

  lemma {:induction false} NumTimes(c: nat, x: nat, k: int)
    ensures Num(c * x, k) == c * Num(x, k)
  {
  }

  lemma {:induction false} RatioLe(b: nat, s: nat, n: nat, lo: nat, nb: nat, m: nat, c: nat)
    requires m > 0 && b * m == s * n && lo * m == s * nb && n <= c * nb
    ensures b <= c * lo
  {
    MulLe(n, c * nb, s);
    assert s * (c * nb) == c * lo * m by { assert c * (lo * m) == c * (s * nb); }
    MulCancelLe(b, c * lo, m);
  }
}
