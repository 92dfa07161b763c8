/** mult and pow5mult of dtoa.c: exact products, and the lazily grown list of powers 5^(4 * 2^i). */
module Multiply {
  import opened Arith
  import opened Words
  import opened Bigints

  /** Inside mult: y times the low i words of a is added at word j, the carry waits at word j + i. */
  ghost predicate RowAdding(c0: seq<Word>, c: seq<Word>, a: seq<Word>, y: Word, j: nat, i: nat, carry: int)
  {
    && |c| == |c0| && i <= |a| && j + |a| < |c| && 0 <= carry < BASE
    && Val(c) + carry * Weight(j + i) == Val(c0) + y * Val(a[..i]) * Weight(j)
    && c[j + i..] == c0[j + i..]
  }

  lemma {:induction false} RowFits(x: Word, y: Word, c: Word, carry: int)
    requires 0 <= carry < BASE
    ensures 0 <= x * y + c + carry < BASE64 && (x * y + c + carry) / BASE < BASE
  {
    MulLe(x, 0xFFFF_FFFF, y);
    assert 0 <= x * y <= 0xFFFF_FFFF * 0xFFFF_FFFF;
    assert x * y + c + carry < 0x1_0000_0000_0000_0000;
  }

  lemma {:induction false} RowStart(c: seq<Word>, a: seq<Word>, y: Word, j: nat)
    requires j + |a| < |c|
    ensures RowAdding(c, c, a, y, j, 0, 0)
  {
    assert a[..0] == [];
  }

  lemma {:induction false} RowStep(c0: seq<Word>, c: seq<Word>, a: seq<Word>, y: Word, j: nat, i: nat, carry: int)
    returns (low: Word)
    requires RowAdding(c0, c, a, y, j, i, carry) && i < |a|
    ensures var z := a[i] * y + c[j + i] + carry;
            && 0 <= z < BASE64 && z / BASE < BASE && low == z % BASE
            && RowAdding(c0, c[j + i := low], a, y, j, i + 1, z / BASE)
  {
    hide Val, Weight, Pow;
    var z := a[i] * y + c[j + i] + carry;
    RowFits(a[i], y, c[j + i], carry);
    low := z % BASE;
    ValUpdate(c, j + i, low);
    ValStep(a, i);
    ValStep(c, j + i);
    WeightAdd(j, i);
    assert c[j + i := low][j + i + 1..] == c[j + i..][1..] && c0[j + i + 1..] == c0[j + i..][1..];
    RowArith(Val(c), Val(c0), y, Val(a[..i]), a[i], c[j + i], carry, Weight(j), Weight(i), z / BASE, low);
  }

  lemma {:induction false} RowArith(v: int, v0: int, y: int, prefix: int, w: int, cw: int, carry: int, pj: int,
      pi: int, q: int, r: int)
    requires v + carry * (pj * pi) == v0 + y * prefix * pj
    requires w * y + cw + carry == q * BASE + r
    ensures v + (r - cw) * (pj * pi) + q * (BASE * (pj * pi)) == v0 + y * (prefix + w * pi) * pj
  {
    var p := pj * pi;
    assert (r - cw) * p + q * (BASE * p) == (q * BASE + r) * p - cw * p;
    assert (w * y + cw + carry) * p == w * y * p + cw * p + carry * p;
    assert y * (prefix + w * pi) * pj == y * prefix * pj + w * y * (pj * pi);
  }

  /** The word above a finished row takes the last carry. */
  lemma {:induction false} RowDone(c0: seq<Word>, c: seq<Word>, a: seq<Word>, y: Word, j: nat, carry: Word)
    requires RowAdding(c0, c, a, y, j, |a|, carry) && c0[j + |a|] == 0
    ensures c[j + |a|] == 0
    ensures Val(c[j + |a| := carry]) == RowTotal(Val(c0), y, Val(a), j)
    ensures c[j + |a| := carry][j + |a| + 1..] == c0[j + |a| + 1..]
  {
    hide Val, Weight, Pow;
    var n := j + |a|;
    assert a[..|a|] == a;
    assert c[n] == c[n..][0] == c0[n..][0];
    ValUpdate(c, n, carry);
    assert c[n := carry][n + 1..] == c[n..][1..] && c0[n + 1..] == c0[n..][1..];
  }

  /** v with y times a added at word j. */
  ghost function RowTotal(v: nat, y: nat, a: nat, j: nat): nat
  {
    v + y * a * Weight(j)
  }

  /** One row of the schoolbook product: a times y added at word j of the n words in use. */
  method AddRow(c: array<Word>, ghost n: nat, a: Bigint, y: Word, j: nat)
    requires a.Valid() && c != a.x && j + a.wds < n <= c.Length && a.wds > 0
    requires c[j + a.wds] == 0
    modifies c
    ensures Val(c[..n]) == RowTotal(old(Val(c[..n])), y, a.Value(), j)
    ensures c[..n][j + a.wds + 1..] == old(c[..n][j + a.wds + 1..])
  {
    hide RowAdding, RowTotal, Val, Weight, Pow;
    ghost var c0, s := c[..n], a.x[..a.wds];
    var i := 0;
    var carry: Word := 0;
    RowStart(c0, s, y, j);
    while i == 0 || i < a.wds
      invariant 0 <= i <= a.wds
      invariant RowAdding(c0, c[..n], s, y, j, i, carry)
      decreases a.wds - i
    {
      ghost var u := c[..n];
      ghost var low := RowStep(c0, u, s, y, j, i, carry);
      var z := a.x[i] * y + c[j + i] + carry;
      c[j + i], carry := z % BASE, z / BASE;
      assert c[..n] == u[j + i := low];
      i := i + 1;
    }
    ghost var u := c[..n];
    RowDone(c0, u, s, y, j, carry);
    c[j + i] := carry;
    assert c[..n] == u[j + a.wds := carry];
  }

  ghost predicate ZeroFrom(c: seq<Word>, n: nat)
  {
    forall i :: n <= i < |c| ==> c[i] == 0
  }

  /** One row in place: the partial product grows by one word of b. */
  lemma {:induction false} RowsStep(c0: seq<Word>, c: seq<Word>, a: nat, b: seq<Word>, j: nat)
    requires j < |b| && Val(c0) == a * Val(b[..j])
    requires Val(c) == RowTotal(Val(c0), b[j], a, j)
    ensures Val(c) == a * Val(b[..j + 1])
  {
    hide Val, Weight, Pow;
    ValStep(b, j);
    RowsArith(a, Val(b[..j]), b[j], Weight(j));
  }

  lemma {:induction false} RowsArith(a: int, v: int, w: int, p: int)
    ensures a * v + w * a * p == a * (v + w * p)
  {
  }

  lemma {:induction false} NoRow(v: nat, a: nat, j: nat)
    ensures RowTotal(v, 0, a, j) == v
  {
  }

  /** All rows: n zeroed words of c become the product. */
  method AddRows(c: array<Word>, ghost n: nat, a: Bigint, b: Bigint)
    requires a.Valid() && b.Valid() && c != a.x && c != b.x
    requires a.wds + b.wds <= n <= c.Length && b.wds <= a.wds
    requires ZeroFrom(c[..n], 0)
    modifies c
    ensures Val(c[..n]) == a.Value() * b.Value()
  {
    hide Val, Weight, Pow, RowTotal;
    ghost var s := b.x[..b.wds];
    ValZeros(c[..n], 0);
    ValEmpty(c[..n][..0]);
    ValEmpty(s[..0]);
    var j := 0;
    while j < b.wds
      invariant 0 <= j <= b.wds
      invariant Val(c[..n]) == a.Value() * Val(s[..j])
      invariant ZeroFrom(c[..n], a.wds + j)
    {
      var y := b.x[j];
      ghost var c0 := c[..n];
      if y != 0 {
        AddRow(c, n, a, y, j);
        ZeroTail(c0, c[..n], a.wds + j + 1);
      }
      assert s[j] == y;
      if y == 0 {
        NoRow(Val(c0), a.Value(), j);
      }
      RowsStep(c0, c[..n], a.Value(), s, j);
      j := j + 1;
    }
    assert s[..j] == s;
  }

  lemma {:induction false} ZeroTail(c0: seq<Word>, c: seq<Word>, n: nat)
    requires |c| == |c0| && n <= |c| && ZeroFrom(c0, n) && c[n..] == c0[n..]
    ensures ZeroFrom(c, n)
  {
    forall i | n <= i < |c|
      ensures c[i] == 0
    {
      assert c[i] == c[n..][i - n] == c0[n..][i - n] == c0[i];
    }
  }

  /** mult: the exact product in a new number. */
  method Mult(a0: Bigint, b0: Bigint) returns (c: Bigint)
    requires a0.Valid() && b0.Valid() && a0.wds + b0.wds > 0
    ensures fresh(c) && fresh(c.x) && c.sign == 0
    ensures c.Valid() && c.Value() == a0.Value() * b0.Value()
  {
    hide Val, Weight, Pow;
    var a, b := a0, b0;
    if a.wds < b.wds {
      a, b := b, a;
    }
    assert a.Value() * b.Value() == a0.Value() * b0.Value();
    var k := a.k;
    var wc := a.wds + b.wds;
    if wc > a.maxwds {
      k := k + 1;
    }
    PowNext(2, a.k + 1);
    c := new Bigint.Balloc(k);
    Product(c, a, b, wc);
  }

  /** The product in a number with room for it. */
  method Product(c: Bigint, a: Bigint, b: Bigint, wc0: nat)
    requires a.Valid() && b.Valid() && c.x != a.x && c.x != b.x && c != a && c != b
    requires b.wds <= a.wds && wc0 == a.wds + b.wds > 0 && wc0 <= c.maxwds && c.x.Length == c.maxwds == Pow(2, c.k)
    modifies c`wds, c.x
    ensures c.Valid() && c.Value() == a.Value() * b.Value()
  {
    hide Val, Weight, Pow;
    Clear(c.x, wc0);
    AddRows(c.x, wc0, a, b);
    ghost var s := c.x[..wc0];
    var wc := UsedWords(c.x, wc0);
    c.wds := wc;
    ValZeros(s, wc);
    assert c.x[..wc] == s[..wc];
    assert wc == 0 ==> c.x[0] == s[0];
  }

  method Clear(x: array<Word>, n: nat)
    requires n <= x.Length
    modifies x
    ensures ZeroFrom(x[..n], 0)
  {
    for i := 0 to n
      invariant forall t :: 0 <= t < i ==> x[t] == 0
    {
      x[i] := 0;
    }
  }

  /** The words in use once zeros on top are dropped. */
  method UsedWords(x: array<Word>, n: nat) returns (wc: nat)
    requires n <= x.Length
    ensures wc <= n && ZeroFrom(x[..n], wc) && (wc > 0 ==> x[wc - 1] != 0)
  {
    wc := n;
    while wc > 0 && x[wc - 1] == 0
      invariant 0 <= wc <= n && ZeroFrom(x[..n], wc)
    {
      wc := wc - 1;
    }
  }
}
