/** lshift, rshift, any_on and increment of dtoa.c. */
module Shifts {
  import opened Arith
  import opened Bits
  import opened Words
  import opened Bigints

  /** A word offset is a multiple of 32 bits. */
  lemma {:induction false} WeightIsPow2(n: nat)
    ensures Weight(n) == Pow(2, 32 * n)
  {
    Pow2Large();
    PowPower(2, 32, n);
  }

  lemma {:induction false} ShiftAmount(k: nat)
    ensures Pow(2, k) == Weight(k / 32) * Pow(2, k % 32)
  {
    hide Pow;
    WeightIsPow2(k / 32);
    PowAdd(2, 32 * (k / 32), k % 32);
    assert k == 32 * (k / 32) + k % 32;
  }

  /** Inside lshift: the words written so far hold the shifted prefix, the bits in z come next. */
  ghost predicate Shifting(s: seq<Word>, t: seq<Word>, z: Word, k: nat)
  {
    |t| <= |s| && z < Pow(2, k) && Val(t) + z * Weight(|t|) == Val(s[..|t|]) * Pow(2, k)
  }

  lemma {:induction false} ShiftStart(s: seq<Word>, k: nat)
    ensures Shifting(s, [], 0, k)
  {
    ValEmpty([]);
    ValEmpty(s[..0]);
  }

  lemma {:induction false} ShiftStep(s: seq<Word>, t: seq<Word>, z: Word, k: nat) returns (low: Word, high: Word)
    requires Shifting(s, t, z, k) && |t| < |s| && k <= 32
    ensures low == BitOr(Shl(s[|t|], k), z) && high == Shr(s[|t|], 32 - k)
    ensures Shifting(s, t + [low], high, k)
  {
    hide Pow, Val, Weight, BitOr;
    var i, p := |t|, Pow(2, k);
    var w := s[i];
    ShiftOr(w, z, k);
    low, high := (w * p + z) % BASE, (w * p + z) / BASE;
    ValStep(s, i);
    ValStep(t + [low], i);
    assert (t + [low])[..i] == t && (t + [low])[..i + 1] == t + [low];
    ShiftArith(Val(t), Val(s[..i]), w, z, p, Weight(i), high, low);
  }

  lemma {:induction false} ShiftArith(v: int, v0: int, w: int, z: int, p: int, wt: int, q: int, r: int)
    requires v + z * wt == v0 * p && w * p + z == q * BASE + r
    ensures v + r * wt + q * (BASE * wt) == (v0 + w * wt) * p
  {
    assert r * wt + q * (BASE * wt) == (q * BASE + r) * wt;
    assert (w * p + z) * wt == w * wt * p + z * wt;
  }

  /** The word part of lshift: x1[n..] receives the words of b shifted by k bits; z is what spills over. */
  method ShiftWords(x1: array<Word>, n: nat, b: Bigint, k: nat) returns (z: Word)
    requires b.Valid() && b.wds > 0 && x1 != b.x && n + b.wds <= x1.Length && 0 < k < 32
    modifies x1
    ensures x1[..n] == old(x1[..n])
    ensures Shifting(b.x[..b.wds], x1[n..n + b.wds], z, k)
  {
    hide Shifting, Pow, Val, Weight, BitOr, Shr, Shl;
    ghost var s := b.x[..b.wds];
    z := 0;
    ShiftStart(s, k);
    assert x1[n..n] == [];
    var i := 0;
    while i == 0 || i < b.wds
      invariant 0 <= i <= b.wds && x1[..n] == old(x1[..n])
      invariant Shifting(s, x1[n..n + i], z, k)
      decreases b.wds - i
    {
      ghost var t := x1[n..n + i];
      ghost var low, high := ShiftStep(s, t, z, k);
      x1[n + i] := BitOr(Shl(b.x[i], k), z);
      z := Shr(b.x[i], 32 - k);
      assert x1[n..n + i + 1] == t + [low];
      i := i + 1;
    }
  }

  /** The top word of a shifted number, once the spill-over is stored, is not zero. */
  lemma {:induction false} ShiftedTop(s: seq<Word>, t: seq<Word>, z: Word, k: nat)
    requires s != [] && s[|s| - 1] != 0 && |t| == |s| && Shifting(s, t, z, k)
    ensures Val(t + [z]) == Val(s) * Pow(2, k)
    ensures z == 0 ==> t[|t| - 1] != 0 && Val(t) == Val(s) * Pow(2, k)
  {
    hide Pow, Weight, Val;
    assert s[..|s|] == s;
    ValStep(t + [z], |t|);
    assert (t + [z])[..|t|] == t && (t + [z])[..|t| + 1] == t + [z];
    if z == 0 {
      ValTop(s);
      MulLe(1, Pow(2, k), Val(s));
      TopNonZero(t);
    }
  }

  /** Leading zero words multiply by their weight. */
  lemma {:induction false} WholeWords(zeros: seq<Word>, t: seq<Word>, v: nat, p: nat, k: nat)
    requires forall i | 0 <= i < |zeros| :: zeros[i] == 0
    requires |zeros| == k / 32 && Val(t) == v * p && p == Pow(2, k % 32)
    ensures Val(zeros + t) == v * Pow(2, k)
  {
    hide Pow, Weight, Val;
    ValZeros(zeros, 0);
    ValEmpty(zeros[..0]);
    ValAppend(zeros, t);
    ShiftAmount(k);
    assert Weight(k / 32) * (v * p) == v * (Weight(k / 32) * p);
  }

  /** The shifted words above n zero words; n1 is the number of words now in use. */
  method FillShifted(x1: array<Word>, n: nat, b: Bigint, k: nat, ghost k0: nat) returns (n1: nat)
    requires b.Valid() && b.Value() > 0 && x1 != b.x && n + b.wds < x1.Length
    requires n == k0 / 32 && k == k0 % 32 && forall t | 0 <= t < n :: x1[t] == 0
    modifies x1
    ensures 0 < n1 <= x1.Length && x1[n1 - 1] != 0
    ensures Val(x1[..n1]) == b.Value() * Pow(2, k0)
  {
    hide Pow, Weight, Val, Shifting;
    ghost var s := b.x[..b.wds];
    ghost var zeros := x1[..n];
    TopUsed(s);
    n1 := n + b.wds;
    if k != 0 {
      var z := ShiftWords(x1, n, b, k);
      ghost var t := x1[n..n1];
      ShiftedTop(s, t, z, k);
      x1[n1] := z;
      if z != 0 {
        n1 := n1 + 1;
        t := t + [z];
      }
      WholeWords(zeros, t, Val(s), Pow(2, k), k0);
      assert x1[..n1] == zeros + t;
      assert x1[n1 - 1] == t[|t| - 1];
    } else {
      CopyWords(x1, n, b);
      PowOne(2);
      WholeWords(zeros, s, Val(s), 1, k0);
      assert x1[..n1] == zeros + s;
      assert x1[n1 - 1] == s[b.wds - 1];
    }
  }

  method CopyWords(x1: array<Word>, n: nat, b: Bigint)
    requires b.Valid() && b.wds > 0 && x1 != b.x && n + b.wds < x1.Length
    modifies x1
    ensures x1[..n + b.wds] == old(x1[..n]) + b.x[..b.wds]
  {
    var i := 0;
    while i == 0 || i < b.wds
      invariant 0 <= i <= b.wds && x1[..n + i] == old(x1[..n]) + b.x[..i]
      decreases b.wds - i
    {
      x1[n + i] := b.x[i];
      i := i + 1;
    }
  }

  /** lshift: b times 2^k in a new number. */
  method LShift(b: Bigint, k: nat) returns (b1: Bigint)
    requires b.Valid() && b.Value() > 0
    ensures fresh(b1) && fresh(b1.x) && b1.sign == 0
    ensures b1.Valid() && b1.Value() == b.Value() * Pow(2, k)
  {
    hide Pow, Weight, Val;
    var n := k / 32;
    var k1 := b.k;
    var n1 := n + b.wds + 1;
    var i := b.maxwds;
    while n1 > i
      invariant i == Pow(2, k1)
    {
      i := 2 * i;
      k1 := k1 + 1;
      PowNext(2, k1);
    }
    b1 := new Bigint.Balloc(k1);
    i := 0;
    while i < n
      modifies b1.x
      invariant 0 <= i <= n && forall t | 0 <= t < i :: b1.x[t] == 0
    {
      b1.x[i] := 0;
      i := i + 1;
    }
    var used := FillShifted(b1.x, n, b, k % 32, k);
    b1.wds := used;
  }

  /** A positive number that obeys the representation rules has a non-zero top word. */
  lemma {:induction false} TopUsed(s: seq<Word>)
    requires Val(s) > 0 && (|s| > 1 ==> s[|s| - 1] != 0)
    ensures s != [] && s[|s| - 1] != 0
  {
    if |s| == 1 {
      ValOneWord(s);
    }
  }

  lemma {:induction false} ValOneWord(s: seq<Word>)
    requires |s| == 1
    ensures Val(s) == s[0]
  {
    assert s[..0] == [];
    assert Weight(0) == 1;
  }

  /** Inside rshift: |out| words written, one more read; y holds the bits still to be placed. */
  ghost predicate Dropping(t: seq<Word>, out: seq<Word>, y: Word, k: nat)
  {
    && |out| < |t| && k <= 32 && y < Pow(2, 32 - k)
    && DropSum(Pow(2, k), Val(out), y, Weight(|out|), LowBits(t[0], k), Val(t[..|out| + 1]))
  }

  ghost predicate DropSum(p: int, v: int, y: int, wt: int, low: int, total: int)
  {
    p * (v + y * wt) + low == total
  }

  lemma {:induction false} DropStart(t: seq<Word>, k: nat)
    requires t != [] && k <= 32
    ensures Shr(t[0], k) < Pow(2, 32 - k)
    ensures Dropping(t, [], Shr(t[0], k), k)
  {
    hide Pow, Val, Weight, BitOr, Shr, LowBits;
    ValOneWord(t[..1]);
    ValEmpty([]);
    WeightZero();
    ShiftOr(t[0], 0, 32 - k);
    ShrLow(t[0], k);
    assert t[..1][0] == t[0];
  }

  lemma {:induction false} WeightZero()
    ensures Weight(0) == 1
  {
  }

  lemma {:induction false} WeightNext(i: nat)
    ensures Weight(i + 1) == BASE * Weight(i)
  {
  }

  /** The word (y | v << (32 - k)): y below, the k dropped bits of v above. */
  lemma {:induction false} DroppedWord(v: Word, y: Word, k: nat) returns (w: Word)
    requires k <= 32 && y < Pow(2, 32 - k)
    ensures w == BitOr(y, Shl(v, 32 - k)) == y + LowBits(v, k) * Pow(2, 32 - k)
    ensures Shr(v, k) < Pow(2, 32 - k)
    ensures v != 0 && Shr(v, k) == 0 ==> w != 0
  {
    hide Pow, BitOr, Shr, LowBits, Shl;
    var p, q := Pow(2, k), Pow(2, 32 - k);
    Pow2Complement(k);
    ShiftSplit(v, 32 - k);
    OrComm(y, LowBits(v, k) * q);
    OrDisjoint(LowBits(v, k), y, 32 - k);
    ShiftOr(v, 0, 32 - k);
    ShrLow(v, k);
    ShiftedWordFits(y, LowBits(v, k), p, q);
    w := y + LowBits(v, k) * q;
    if v != 0 && Shr(v, k) == 0 {
      MulLe(1, LowBits(v, k), q);
    }
  }

  lemma {:induction false} ShiftedWordFits(y: nat, l: nat, p: nat, q: nat)
    requires y < q && l < p && p * q == BASE
    ensures y + l * q < BASE
  {
    MulLe(l + 1, p, q);
    assert (l + 1) * q == l * q + q;
  }

  lemma {:induction false} DropStep(t: seq<Word>, out: seq<Word>, y: Word, k: nat, w: Word)
    requires Dropping(t, out, y, k) && |out| + 1 < |t|
    requires w == y + LowBits(t[|out| + 1], k) * Pow(2, 32 - k)
    requires Shr(t[|out| + 1], k) < Pow(2, 32 - k)
    ensures Dropping(t, out + [w], Shr(t[|out| + 1], k), k)
  {
    hide Pow, Val, Weight, DropSum, Shr, LowBits;
    var i := |out|;
    var v := t[i + 1];
    ValStep(t, i + 1);
    ValStep(out + [w], i);
    assert (out + [w])[..i] == out && (out + [w])[..i + 1] == out + [w];
    WeightNext(i);
    ShrLow(v, k);
    Pow2Complement(k);
    DropArith(Val(out), y, Shr(v, k), LowBits(v, k), Pow(2, k), Pow(2, 32 - k), Weight(i), LowBits(t[0], k),
              Val(t[..i + 1]), w, v, Val(out + [w]), Weight(i + 1), Val(t[..i + 2]));
  }

  lemma {:induction false} DropArith(v: int, y: int, h: int, l: int, p: int, q: int, wt: int, low: int, total: int,
                  w: int, x: int, v2: int, wt2: int, total2: int)
    requires p * q == BASE && DropSum(p, v, y, wt, low, total)
    requires w == y + l * q && x == p * h + l && wt2 == BASE * wt
    requires v2 == v + w * wt && total2 == total + x * wt2
    ensures DropSum(p, v2, h, wt2, low, total2)
  {
    assert (y + l * q) * wt == y * wt + l * q * wt;
    assert p * (l * q * wt) == l * (p * q) * wt;
    assert p * (h * (BASE * wt)) == p * h * (BASE * wt);
  }

  /** All words read: what was written is the quotient of the words from n on. */
  lemma {:induction false} DropDone(s: seq<Word>, n: nat, out: seq<Word>, y: Word, k0: nat)
    requires n < |s| && n == k0 / 32
    requires Dropping(s[n..], out, y, k0 % 32) && |out| + 1 == |s| - n
    ensures Val(out + [y]) == Shr(Val(s), k0)
    ensures y == 0 ==> Val(out) == Shr(Val(s), k0)
  {
    hide Val, Weight, Pow, LowBits, Shr, DropSum;
    var t, i, k := s[n..], |out|, k0 % 32;
    assert t[..i + 1] == t && s[..n] + t == s;
    ValAppend(s[..n], t);
    ValBound(s[..n]);
    ValStep(out + [y], i);
    assert (out + [y])[..i] == out && (out + [y])[..i + 1] == out + [y];
    FloorOfParts(Val(s), n, k0, Val(out), y, Weight(i), LowBits(t[0], k), Val(s[..n]), Val(t));
    if y == 0 {
      YZero(Val(out), y, Weight(i));
    }
  }

  lemma {:induction false} YZero(v: int, y: int, wt: int)
    requires y == 0
    ensures v + y * wt == v
  {
  }

  lemma {:induction false} FloorOfParts(v: nat, n: nat, k0: nat, out: nat, y: nat, wt: nat, r: nat, low: nat, t: nat)
    requires n == k0 / 32 && r < Pow(2, k0 % 32) && low < Weight(n)
    requires v == low + Weight(n) * t && DropSum(Pow(2, k0 % 32), out, y, wt, r, t)
    ensures Shr(v, k0) == out + y * wt
  {
    hide Pow, Weight;
    var p, w, q := Pow(2, k0 % 32), Weight(n), out + y * wt;
    ShiftAmount(k0);
    assert w * t == q * (w * p) + w * r;
    MulLe(r + 1, p, w);
    assert (r + 1) * w == w * r + w;
    DivModUnique(v, w * p, q, w * r + low);
  }

  /** The loop of rshift for a shift that is not a whole number of words. */
  method DropLoop(x: array<Word>, wds: nat, n: nat, k: nat) returns (y: Word)
    requires n < wds <= x.Length && 0 < k < 32
    modifies x
    ensures Dropping(old(x[..wds])[n..], x[..wds - n - 1], y, k)
    ensures old(x[wds - 1]) != 0 && y == 0 && wds > n + 1 ==> x[wds - n - 2] != 0
  {
    hide Dropping, Val, Weight, Pow, BitOr, Shr, Shl, LowBits;
    ghost var s := x[..wds];
    ghost var t := s[n..];
    DropStart(t, k);
    y := Shr(x[n], k);
    var i := n + 1;
    assert x[..0] == [];
    while i < wds
      invariant n < i <= wds && x[i..wds] == s[i..]
      invariant Dropping(t, x[..i - n - 1], y, k)
      invariant s[i - 1] != 0 && y == 0 && i > n + 1 ==> x[i - n - 2] != 0
    {
      ghost var out := x[..i - n - 1];
      assert x[i] == x[i..wds][0] == s[i] == t[|out| + 1];
      DroppingY(t, out, y, k);
      ghost var w := DroppedWord(x[i], y, k);
      DropStep(t, out, y, k, w);
      x[i - n - 1] := BitOr(y, Shl(x[i], 32 - k));
      y := Shr(x[i], k);
      i := i + 1;
      assert x[..i - n - 1] == out + [w];
      assert x[i..wds] == s[i - 1..][1..];
    }
  }

  lemma {:induction false} DroppingY(t: seq<Word>, out: seq<Word>, y: Word, k: nat)
    requires Dropping(t, out, y, k)
    ensures y < Pow(2, 32 - k)
  {
  }

  /** The part of rshift that moves and shifts the words from n on; len words result. */
  method DropBits(x: array<Word>, wds: nat, n: nat, k: nat, ghost k0: nat) returns (len: nat)
    requires n < wds <= x.Length && n == k0 / 32 && k == k0 % 32 && k > 0
    modifies x
    ensures len <= wds && Val(x[..len]) == Shr(old(Val(x[..wds])), k0)
    ensures old(x[wds - 1]) != 0 && len > 0 ==> x[len - 1] != 0
    ensures len == 0 ==> x[0] == 0
  {
    hide Dropping, Val, Weight, Pow, Shr;
    ghost var s := x[..wds];
    var y := DropLoop(x, wds, n, k);
    len := wds - n - 1;
    ghost var out := x[..len];
    DropDone(s, n, out, y, k0);
    x[len] := y;
    if y != 0 {
      len := len + 1;
      assert x[..len] == out + [y];
    }
  }

  /** The loop of rshift for whole words. */
  method MoveDown(x: array<Word>, wds: nat, n: nat)
    requires n < wds <= x.Length
    modifies x
    ensures x[..wds - n] == old(x[n..wds])
  {
    var i := n;
    while i < wds
      invariant n <= i <= wds && forall j | i <= j < wds :: x[j] == old(x[j])
      invariant forall j | 0 <= j < i - n :: x[j] == old(x[j + n])
    {
      x[i - n] := x[i];
      i := i + 1;
    }
  }

  /** rshift: b >> k, in place. */
  method RShift(b: Bigint, k: nat)
    requires b.Valid()
    modifies b`wds, b.x
    ensures b.Valid() && b.Value() == Shr(old(b.Value()), k)
  {
    hide Val, Weight, Pow, Shr;
    var n := k / 32;
    ghost var s := b.x[..b.wds];
    var len := 0;
    if n < b.wds {
      if k % 32 != 0 {
        len := DropBits(b.x, b.wds, n, k % 32, k);
      } else {
        MoveDown(b.x, b.wds, n);
        len := b.wds - n;
        WholeDrop(s, n, k);
        assert b.x[..len] == s[n..];
        assert b.x[len - 1] == s[n..][len - 1];
      }
    } else {
      AllDropped(s, k);
    }
    if len == 0 {
      b.x[0] := 0;
      ValEmpty(b.x[..0]);
    }
    b.wds := len;
  }

  lemma {:induction false} WholeDrop(s: seq<Word>, n: nat, k: nat)
    requires n < |s| && k == 32 * n
    ensures Val(s[n..]) == Shr(Val(s), k)
  {
    hide Val, Weight, Pow;
    assert s[..n] + s[n..] == s;
    ValAppend(s[..n], s[n..]);
    ValBound(s[..n]);
    ShiftAmount(k);
    PowOne(2);
    DivModUnique(Val(s), Weight(n), Val(s[n..]), Val(s[..n]));
  }

  lemma {:induction false} AllDropped(s: seq<Word>, k: nat)
    requires |s| <= k / 32
    ensures Shr(Val(s), k) == 0
  {
    hide Val, Weight, Pow;
    ValBound(s);
    WeightIsPow2(|s|);
    PowMono(2, 32 * |s|, k);
    DivModUnique(Val(s), Pow(2, k), 0, Val(s));
  }

  /** any_on: is one of the low k bits set? */
  method AnyOn(b: Bigint, k0: nat) returns (on: bool)
    requires b.Valid()
    ensures on <==> LowBits(b.Value(), k0) != 0
  {
    hide Val, Weight, Pow, LowBits, Shr, Shl;
    var k := k0;
    var nwds := b.wds;
    var n := k / 32;
    ghost var s := b.x[..nwds];
    if n > nwds {
      n := nwds;
    } else if n < nwds && k % 32 != 0 {
      k := k % 32;
      var x2 := b.x[n];
      var x1 := Shl(Shr(x2, k), k);
      CutWord(x2, k);
      if x1 != x2 {
        LowSplit(s, n, k0);
        return true;
      }
    }
    assert n < nwds ==> LowBits(s[n], k0 % 32) == 0 by {
      if n < nwds && k0 % 32 == 0 {
        NoBits(s[n]);
      }
    }
    assert LowBits(Val(s), k0) == Val(s[..n]) by {
      if n < nwds {
        LowSplit(s, n, k0);
      } else {
        AllLow(s, k0);
      }
    }
    var m := n;
    while m > 0
      invariant 0 <= m <= n && ZeroWords(s[m..n])
    {
      m := m - 1;
      if b.x[m] != 0 {
        NonZeroWord(s[..n], m);
        return true;
      }
      assert s[m..n] == [s[m]] + s[m + 1..n];
    }
    assert s[0..n] == s[..n];
    ValZeros(s[..n], 0);
    ValEmpty(s[..n][..0]);
    return false;
  }

  ghost predicate ZeroWords(s: seq<Word>)
  {
    forall i | 0 <= i < |s| :: s[i] == 0
  }

  lemma {:induction false} NonZeroWord(s: seq<Word>, m: nat)
    requires m < |s| && s[m] != 0
    ensures Val(s) > 0
  {
    hide Val, Weight, Pow;
    var n := |s| - 1;
    if m < n {
      NonZeroWord(s[..n], m);
      ValStep(s, n);
      assert s[..n + 1] == s;
      MulLe(0, s[n], Weight(n));
    } else {
      ValTop(s);
    }
  }

  /** Shifting right and back left loses exactly the low bits. */
  lemma {:induction false} CutWord(w: Word, k: nat)
    requires k < 32
    ensures Shl(Shr(w, k), k) != w <==> LowBits(w, k) != 0
  {
    hide Pow, LowBits, Shr;
    ShrLow(w, k);
    CutArith(w, Pow(2, k), Shr(w, k), LowBits(w, k));
  }

  lemma {:induction false} CutArith(w: Word, p: nat, h: nat, l: nat)
    requires w == p * h + l
    ensures h * p % BASE == w - l
  {
    assert h * p == p * h;
    SmallMod(h * p);
  }

  lemma {:induction false} SmallMod(x: nat)
    requires x < BASE
    ensures x % BASE == x
  {
  }

  /** The low k bits of a number: the whole words below word k / 32, and the low bits of that word. */
  lemma {:induction false} LowSplit(s: seq<Word>, n: nat, k: nat)
    requires n < |s| && n == k / 32
    ensures LowBits(Val(s), k) == 0 <==> Val(s[..n]) == 0 && LowBits(s[n], k % 32) == 0
    ensures LowBits(s[n], k % 32) == 0 ==> LowBits(Val(s), k) == Val(s[..n])
  {
    hide Val, Weight, Pow, LowBits, Shr;
    var t := s[n..];
    assert s[..n] + t == s;
    ValAppend(s[..n], t);
    ValBound(s[..n]);
    var r := LowBits(s[n], k % 32);
    assert t[..1] == [s[n]] && t[..1] + t[1..] == t;
    ValAppend(t[..1], t[1..]);
    ValOneWord(t[..1]);
    ShrLow(s[n], k % 32);
    WeightNext(0);
    WeightZero();
    LowParts(Val(s), Weight(n), Val(s[..n]), Val(t), s[n], Shr(s[n], k % 32), r, k, Val(t[1..]));
  }

  lemma {:induction false} LowParts(v: nat, w: nat, low: nat, t: nat, s: nat, h: nat, r: nat, k: nat, u: nat)
    requires w == Weight(k / 32) && low < w && v == low + w * t && t == s + BASE * u
    requires s == Pow(2, k % 32) * h + r && r < Pow(2, k % 32)
    ensures LowBits(v, k) == low + w * r
    ensures w * r == 0 <==> r == 0
  {
    hide Pow, Weight, LowBits;
    var m := k % 32;
    var p, q := Pow(2, m), Pow(2, 32 - m);
    Pow2Complement(m);
    ShiftAmount(k);
    assert BASE * u == p * (q * u);
    assert t == p * (h + q * u) + r;
    assert w * t == w * p * (h + q * u) + w * r;
    MulLe(r + 1, p, w);
    assert (r + 1) * w == w * r + w;
    LowUnique(v, k, h + q * u, low + w * r);
    if r > 0 {
      MulLe(1, r, w);
    }
  }

  lemma {:induction false} LowUnique(v: nat, k: nat, q: nat, r: nat)
    requires v == Pow(2, k) * q + r && r < Pow(2, k)
    ensures LowBits(v, k) == r && Shr(v, k) == q
  {
    hide Pow;
    DivModUnique(v, Pow(2, k), q, r);
  }

  lemma {:induction false} AllLow(s: seq<Word>, k: nat)
    requires |s| <= k / 32
    ensures LowBits(Val(s), k) == Val(s) == Val(s[..|s|])
  {
    hide Val, Weight, Pow, LowBits;
    assert s[..|s|] == s;
    ValBound(s);
    WeightIsPow2(|s|);
    PowMono(2, 32 * |s|, k);
    LowUnique(Val(s), k, 0, Val(s));
  }

  /** Inside increment: the words below i have wrapped to zero, and one is carried into word i. */
  ghost predicate Carrying(s: seq<Word>, u: seq<Word>, i: nat)
  {
    i <= |s| && |u| == |s| && Val(u) + Weight(i) == Val(s) + 1 && u[i..] == s[i..] && ZeroWords(u[..i])
  }

  lemma {:induction false} CarryStart(s: seq<Word>)
    ensures Carrying(s, s, 0)
  {
    WeightZero();
  }

  lemma {:induction false} CarryStep(s: seq<Word>, u: seq<Word>, i: nat)
    requires Carrying(s, u, i) && i < |s|
    ensures u[i] == s[i]
    ensures u[i] < 0xffff_ffff ==> Val(u[i := u[i] as int + 1]) == Val(s) + 1
    ensures u[i] == 0xffff_ffff ==> Carrying(s, u[i := 0], i + 1)
  {
    hide Val, Weight, Pow;
    assert u[i] == u[i..][0] && s[i] == s[i..][0];
    WeightNext(i);
    if u[i] < 0xffff_ffff {
      ValUpdate(u, i, u[i] as int + 1);
    } else {
      ValUpdate(u, i, 0);
      assert u[i := 0][i + 1..] == u[i..][1..] && s[i + 1..] == s[i..][1..];
      assert u[i := 0][..i + 1] == u[..i] + [0];
    }
  }

  lemma {:induction false} CarryDone(s: seq<Word>, u: seq<Word>)
    requires Carrying(s, u, |s|)
    ensures ZeroWords(u) && Val(u) + Weight(|s|) == Val(s) + 1
  {
    hide Val, Weight;
    assert u[..|s|] == u;
  }

  /** increment: b + 1, in place unless every word is full. */
  method Increment(b0: Bigint) returns (b: Bigint)
    requires b0.Valid() && b0.wds > 0
    modifies b0, b0.x
    ensures b == b0 || (fresh(b) && fresh(b.x))
    ensures b.Valid() && b.Value() == old(b0.Value()) + 1
    ensures b.wds == old(b0.wds) || (b.wds == old(b0.wds) + 1 && b.Value() == Weight(old(b0.wds)))
  {
    hide Val, Weight, Pow, Carrying, ZeroWords;
    b := b0;
    var wds := b.wds;
    ghost var s := b.x[..wds];
    var i := 0;
    CarryStart(s);
    while i == 0 || i < wds
      modifies b.x
      invariant 0 <= i <= wds && Carrying(s, b.x[..wds], i)
      invariant i < wds ==> b.x[wds - 1] == s[wds - 1]
      decreases wds - i
    {
      ghost var u := b.x[..wds];
      CarryStep(s, u, i);
      if b.x[i] < 0xffff_ffff {
        b.x[i] := b.x[i] + 1;
        assert b.x[..wds] == u[i := u[i] as int + 1];
        return;
      }
      b.x[i] := 0;
      assert b.x[..wds] == u[i := 0];
      i := i + 1;
    }
    CarryDone(s, b.x[..wds]);
    b := StoreOne(b, Val(s) + 1);
  }

  /** A word above words that are zero. */
  lemma {:induction false} OneAbove(s: seq<Word>)
    requires ZeroWords(s)
    ensures Val(s) == 0 && Val(s + [1]) == Weight(|s|)
  {
    ValZeros(s, 0);
    ValEmpty(s[..0]);
    assert (s + [1])[..|s|] == s;
    hide Weight;
  }

  method StoreOne(b0: Bigint, ghost v: nat) returns (b: Bigint)
    requires b0.x.Length == b0.maxwds == Pow(2, b0.k) && 0 < b0.wds <= b0.maxwds
    requires ZeroWords(b0.x[..b0.wds]) && Val(b0.x[..b0.wds]) + Weight(b0.wds) == v
    modifies b0, b0.x
    ensures b == b0 || (fresh(b) && fresh(b.x))
    ensures b.Valid() && b.Value() == v == Weight(old(b0.wds)) && b.wds == old(b0.wds) + 1
  {
    hide Val, Weight, Pow, ZeroWords;
    b := b0;
    ghost var s := b.x[..b.wds];
    OneAbove(s);
    if b.wds >= b.maxwds {
      PowNext(2, b.k + 1);
      var b1 := new Bigint.Balloc(b.k + 1);
      Bcopy(b1, b);
      b := b1;
    }
    b.x[b.wds] := 1;
    b.wds := b.wds + 1;
    assert b.x[..b.wds] == s + [1];
  }
}
