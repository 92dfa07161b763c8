/** The multiple-precision integers of dtoa.c: words in place, carries and borrows in 64 bits. */
module Bigints {
  import opened Arith
  import opened Words

  const BASE64: nat := 0x1_0000_0000_0000_0000

  class Bigint {
    var next: Bigint?
    const k: nat
    const maxwds: nat
    var sign: int
    var wds: nat
    const x: array<Word>

    /** Room is 1 << k words; the top word is non-zero except that zero may use no word or one. */
    ghost predicate Valid()
      reads this, x
    {
      && x.Length == maxwds == Pow(2, k)
      && wds <= maxwds
      && (wds == 0 ==> x[0] == 0)
      && (wds > 1 ==> x[wds - 1] != 0)
    }

    ghost function Value(): (r: nat)
      requires Valid()
      reads this, x
    {
      Val(x[..wds])
    }

    /** Balloc: room for 1 << k words; what they and next hold is whatever the memory held. */
    constructor Balloc(k: nat)
      ensures this.k == k && maxwds == x.Length == Pow(2, k)
      ensures sign == 0 && wds == 0 && fresh(x)
    {
      this.k := k;
      maxwds := Pow(2, k);
      x := new Word[Pow(2, k)];
      sign := 0;
      wds := 0;
    }
  }

  /** Bcopy: sign, wds and the words in use. */
  method Bcopy(x: Bigint, y: Bigint)
    requires x != y && x.x != y.x && y.wds <= x.x.Length && y.wds <= y.x.Length
    modifies x`sign, x`wds, x.x
    ensures x.sign == y.sign && x.wds == y.wds
    ensures x.x[..x.wds] == y.x[..y.wds]
  {
    x.sign, x.wds := y.sign, y.wds;
    for i := 0 to y.wds
      modifies x.x
      invariant x.x[..i] == y.x[..i]
    {
      x.x[i] := y.x[i];
    }
  }

  lemma {:induction false} CarryFits(w: Word, m: nat, carry: nat)
    requires carry < BASE && 0 < m < 0x8000_0000
    ensures 0 <= w * m + carry < BASE64
    ensures (w * m + carry) / BASE <= m
  {
    MulLe(w, BASE - 1, m);
    assert (BASE - 1) * m + carry < BASE * (m + 1);
  }

  /** What multadd's loop has reached: words below i are multiplied, the carry waits at weight i. */
  ghost predicate MultAdding(s: seq<Word>, u: seq<Word>, i: nat, carry: int, m: nat, a: nat)
  {
    && |u| == |s| && i <= |s| && 0 <= carry < BASE
    && Val(u) + carry * Weight(i) == Val(s) + (m - 1) * Val(s[..i]) + a
    && u[i..] == s[i..]
  }

  lemma {:induction false} MultAddStep(s: seq<Word>, u: seq<Word>, i: nat, carry: int, m: nat, a: nat)
    returns (low: Word)
    requires MultAdding(s, u, i, carry, m, a) && i < |s| && 0 < m < 0x8000_0000
    ensures s[i] == u[i] && low == (u[i] * m + carry) % BASE
    ensures MultAdding(s, u[i := low], i + 1, (u[i] * m + carry) / BASE, m, a)
  {
    assert s[i] == s[i..][0] && u[i] == u[i..][0];
    var p, w, y := Weight(i), s[i], s[i] * m + carry;
    CarryFits(w, m, carry);
    low := y % BASE;
    ValUpdate(u, i, low);
    ValStep(s, i);
    assert u[i := low][i + 1..] == u[i..][1..] && s[i + 1..] == s[i..][1..];
    MultAddArith(Val(u), Val(s), m, a, Val(s[..i]), w, carry, p, y, y / BASE, low);
  }

  lemma {:induction false} MultAddArith(v: int, v0: int, m: int, a: int, prefix: int, w: int, carry: int, p: int,
      y: int, q: int, r: int)
    requires v + carry * p == v0 + (m - 1) * prefix + a
    requires y == w * m + carry == q * BASE + r
    ensures v + (r - w) * p + q * (BASE * p) == v0 + (m - 1) * (prefix + w * p) + a
  {
    assert (r - w) * p + q * (BASE * p) == (q * BASE + r) * p - w * p;
    assert (w * m + carry) * p == m * (w * p) + carry * p;
    assert (m - 1) * (prefix + w * p) == (m - 1) * prefix + m * (w * p) - w * p;
  }

  /** The tail of multadd: a carry out of the top word needs one word more, and perhaps a longer buffer. */
  method StoreCarry(b0: Bigint, carry: Word, ghost v: nat) returns (b: Bigint)
    requires b0.x.Length == b0.maxwds == Pow(2, b0.k) && b0.wds <= b0.maxwds
    requires b0.wds == 0 ==> v == 0 && Val(b0.x[..1]) + carry * Weight(1) == v
    requires b0.wds > 0 ==> Val(b0.x[..b0.wds]) + carry * Weight(b0.wds) == v
    requires b0.wds > 1 ==> Weight(b0.wds - 1) <= v
    modifies b0, b0.x
    ensures b == b0 || (fresh(b) && fresh(b.x))
    ensures b.Valid() && b.Value() == v
    ensures b.wds == 0 <==> old(b0.wds) == 0
    ensures b.sign == old(b0.sign) && b0.next == old(b0.next)
  {
    hide Val, Weight, Pow;
    b := b0;
    var wds := b.wds;
    if wds == 0 {
      OneWordZero(b.x[..1], carry);
      ValEmpty(b.x[..0]);
    }
    if carry != 0 {
      ghost var s := b.x[..wds];
      WordAbove(s, carry);
      if wds >= b.maxwds {
        PowNext(2, b.k + 1);
        var b1 := new Bigint.Balloc(b.k + 1);
        Bcopy(b1, b);
        b := b1;
      }
      b.x[wds] := carry;
      wds := wds + 1;
      b.wds := wds;
      assert b.x[..wds] == s + [carry];
    } else if wds > 1 {
      TopNonZero(b.x[..wds]);
    }
  }

  lemma {:induction false} OneWordZero(s: seq<Word>, carry: Word)
    requires |s| == 1 && Val(s) + carry * Weight(1) == 0
    ensures carry == 0 && s[0] == 0
  {
    assert Weight(1) == BASE * Weight(0) && Weight(0) == 1;
    assert s[..0] == [] && Val(s) == s[0];
  }

  lemma {:induction false} WordAbove(s: seq<Word>, w: Word)
    ensures Val(s + [w]) == Val(s) + w * Weight(|s|)
  {
    assert (s + [w])[..|s|] == s;
    hide Weight;
  }

  /** multadd: multiply by m and add a, in place unless the carry needs a longer buffer. */
  method MultAdd(b0: Bigint, m: nat, a: nat) returns (b: Bigint)
    requires b0.Valid() && 0 < m < 0x8000_0000 && a < 0x8000_0000
    requires b0.wds == 0 ==> a == 0
    modifies b0, b0.x
    ensures b == b0 || (fresh(b) && fresh(b.x))
    ensures b.Valid() && b.Value() == old(b0.Value()) * m + a
    ensures b.wds == 0 <==> old(b0.wds) == 0
    ensures b.sign == old(b0.sign) && b0.next == old(b0.next)
  {
    b := b0;
    hide MultAdding, Val, Weight, Pow;
    var wds := b.wds;
    ghost var n := if wds == 0 then 1 else wds;
    ghost var s := b.x[..n];
    assert s[..wds] == b.x[..wds];
    var i := 0;
    var carry: int := a;
    MultAddStart(s, m, a);
    while i == 0 || i < wds
      modifies b.x
      invariant 0 <= i <= n
      invariant MultAdding(s, b.x[..n], i, carry, m, a)
      decreases n - i
    {
      ghost var u := b.x[..n];
      ghost var low := MultAddStep(s, u, i, carry, m, a);
      var y := b.x[i] * m + carry;
      b.x[i], carry := y % BASE, y / BASE;
      assert b.x[..n] == u[i := low];
      i := i + 1;
    }
    MultAddDone(s, wds, b.x[..n], carry, m, a);
    b := StoreCarry(b, carry, Val(s[..wds]) * m + a);
  }

  lemma {:induction false} MultAddStart(s: seq<Word>, m: nat, a: nat)
    requires a < BASE
    ensures MultAdding(s, s, 0, a, m, a)
  {
  }

  lemma {:induction false} MultAddDone(s: seq<Word>, wds: nat, u: seq<Word>, carry: int, m: nat, a: nat)
    requires |s| == (if wds == 0 then 1 else wds) && (wds == 0 ==> s[0] == 0) && (wds > 1 ==> s[wds - 1] != 0)
    requires MultAdding(s, u, |s|, carry, m, a) && m > 0
    ensures 0 <= carry < BASE && (wds == 0 ==> Val(s[..wds]) == 0)
    ensures Val(u) + carry * Weight(|s|) == Val(s[..wds]) * m + a
    ensures wds > 1 ==> Weight(wds - 1) <= Val(s[..wds]) * m + a
  {
    hide Val, Weight, Pow;
    assert s[..|s|] == s;
    assert (m - 1) * Val(s) == Val(s) * m - Val(s);
    if wds == 0 {
      ValZeros(s, 0);
      ValEmpty(s[..0]);
    } else if wds > 1 {
      MultAddLarge(s, m, a);
    }
  }

  lemma {:induction false} MultAddLarge(s: seq<Word>, m: nat, a: nat)
    requires |s| > 0 && s[|s| - 1] != 0 && m > 0
    ensures Weight(|s| - 1) <= Val(s) * m + a
  {
    hide Val, Weight;
    ValTop(s);
    MulLe(1, m, Val(s));
  }
}
