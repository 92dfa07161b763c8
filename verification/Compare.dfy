/** cmp and diff of dtoa.c: comparing and subtracting. */
module Compare {
  import opened Arith
  import opened Words
  import opened Bigints
  import opened Shifts

  lemma {:induction false} WeightMono(m: nat, n: nat)
    requires m <= n
    ensures Weight(m) <= Weight(n)
  {
    PowMono(BASE, m, n);
  }

  /** More words mean a larger number, under the representation rules. */
  lemma {:induction false} MoreWords(s: seq<Word>, t: seq<Word>)
    requires |s| < |t| && t[|t| - 1] != 0
    ensures Val(s) < Val(t)
  {
    hide Val, Weight, Pow;
    ValBound(s);
    ValTop(t);
    WeightMono(|s|, |t| - 1);
  }

  /** The order cmp reports: by value, except that zero with no word counts below zero with one. */
  ghost predicate Below(a: Bigint, b: Bigint)
    requires a.Valid() && b.Valid()
    reads a, a.x, b, b.x
  {
    a.Value() < b.Value() || (a.Value() == b.Value() == 0 && a.wds < b.wds)
  }

  lemma {:induction false} FewerWords(a: Bigint, b: Bigint)
    requires a.Valid() && b.Valid() && a.wds < b.wds
    ensures Below(a, b) && !Below(b, a)
    ensures a.wds > 0 ==> a.Value() < b.Value()
  {
    hide Val, Weight, Pow;
    var s, t := a.x[..a.wds], b.x[..b.wds];
    if t[b.wds - 1] != 0 {
      MoreWords(s, t);
    } else {
      ValEmpty(s);
      ValOneWord(t);
    }
  }

  lemma {:induction false} HigherWord(s: seq<Word>, t: seq<Word>, i: nat)
    requires |s| == |t| && i < |s| && s[i] != t[i] && s[i + 1..] == t[i + 1..]
    ensures Val(s) < Val(t) <==> s[i] < t[i]
    ensures Val(s) != Val(t)
  {
    hide Val, Weight, Pow;
    if s[i] < t[i] {
      ValCompare(s, t, i);
    } else {
      ValCompare(t, s, i);
    }
  }

  /** cmp: negative, zero or positive as a is below, equal to or above b. */
  method Cmp(a: Bigint, b: Bigint) returns (r: int)
    requires a.Valid() && b.Valid() && (a.wds > 0 || b.wds > 0)
    ensures r < 0 <==> Below(a, b)
    ensures r > 0 <==> Below(b, a)
    ensures r == 0 <==> a.Value() == b.Value() && a.wds == b.wds
    ensures a.wds > 0 && b.wds > 0 ==> (r < 0 <==> a.Value() < b.Value()) && (r > 0 <==> a.Value() > b.Value())
  {
    hide Val, Weight, Pow;
    var i: int, j: int := a.wds, b.wds;
    if i != j {
      if i < j {
        FewerWords(a, b);
      } else {
        FewerWords(b, a);
      }
      return i - j;
    }
    ghost var s, t := a.x[..j], b.x[..j];
    var x := j;
    assert s[x..] == t[x..];
    while true
      invariant 0 < x <= j && s[x..] == t[x..]
      decreases x
    {
      x := x - 1;
      if a.x[x] != b.x[x] {
        HigherWord(s, t, x);
        return if a.x[x] < b.x[x] then -1 else 1;
      }
      assert s[x..] == [s[x]] + s[x + 1..] && t[x..] == [t[x]] + t[x + 1..];
      if x <= 0 {
        break;
      }
    }
    assert s == s[0..] == t[0..] == t;
    return 0;
  }

  /** Inside a borrow loop: the words of c below i are the difference so far, borrow is owed at weight i. */
  ghost predicate Borrowing(s: seq<Word>, t: seq<Word>, c: seq<Word>, borrow: int)
  {
    && |c| <= |s| && |c| <= |t| && 0 <= borrow <= 1
    && Val(c) + Val(t[..|c|]) == Val(s[..|c|]) + borrow * Weight(|c|)
  }

  /** 64-bit unsigned subtraction: its low word is stored, bit 32 is the borrow. */
  lemma {:induction false} BorrowWord(x: Word, y: Word, borrow: int)
    requires 0 <= borrow <= 1
    ensures var d := (x - y - borrow) % BASE64;
      && (d / BASE) % 2 == (if x - y - borrow < 0 then 1 else 0)
      && d % BASE == x - y - borrow + BASE * ((d / BASE) % 2)
  {
    var z := x - y - borrow;
    var d := z % BASE64;
    if z < 0 {
      assert d == z + BASE64;
      assert d / BASE == 0xffff_ffff;
    } else {
      assert d == z;
    }
  }

  lemma {:induction false} BorrowStep(s: seq<Word>, t: seq<Word>, c: seq<Word>, borrow: int) returns (low: Word)
    requires Borrowing(s, t, c, borrow) && |c| < |s| && |c| < |t|
    ensures var d := (s[|c|] - t[|c|] - borrow) % BASE64;
            low == d % BASE && Borrowing(s, t, c + [low], (d / BASE) % 2)
  {
    hide Val, Weight, Pow;
    var i := |c|;
    var d := (s[i] - t[i] - borrow) % BASE64;
    BorrowWord(s[i], t[i], borrow);
    low := d % BASE;
    ValStep(s, i);
    ValStep(t, i);
    ValStep(c + [low], i);
    assert (c + [low])[..i] == c && (c + [low])[..i + 1] == c + [low];
    BorrowArith(s[i], t[i], borrow, low, (d / BASE) % 2, Weight(i));
  }

  lemma {:induction false} BorrowArith(x: int, y: int, borrow: int, low: int, next: int, wt: int)
    requires low == x - y - borrow + BASE * next
    ensures low * wt + y * wt + borrow * wt == x * wt + next * (BASE * wt)
  {
  }

  /** The subtraction loops of diff: the second one runs where b has no words left. */
  method SubtractWords(c: array<Word>, a: Bigint, b: Bigint)
    requires a.Valid() && b.Valid() && c != a.x && c != b.x
    requires 0 < b.wds <= a.wds <= c.Length && a.Value() > b.Value()
    modifies c
    ensures Val(c[..a.wds]) == a.Value() - b.Value()
  {
    hide Borrowing, Val, Weight, Pow;
    var wa, wb := a.wds, b.wds;
    ghost var s := a.x[..wa];
    ghost var t := b.x[..wb] + seq(wa - wb, i => 0 as Word);
    assert t[..wb] == b.x[..wb];
    ValZeros(t, wb);
    BorrowStart(s, t);
    assert c[..0] == [];
    var i := 0;
    var borrow := 0;
    while i == 0 || i < wb
      invariant 0 <= i <= wb && 0 <= borrow <= 1
      invariant Borrowing(s, t, c[..i], borrow)
      decreases wb - i
    {
      ghost var u := c[..i];
      assert b.x[i] == t[..wb][i] == t[i];
      ghost var low := BorrowStep(s, t, u, borrow);
      var y := (a.x[i] - b.x[i] - borrow) % BASE64;
      borrow := (y / BASE) % 2;
      c[i] := y % BASE;
      assert c[..i + 1] == u + [low];
      i := i + 1;
    }
    while i < wa
      invariant wb <= i <= wa && 0 <= borrow <= 1
      invariant Borrowing(s, t, c[..i], borrow)
    {
      ghost var u := c[..i];
      ghost var low := BorrowStep(s, t, u, borrow);
      var y := (a.x[i] - borrow) % BASE64;
      borrow := (y / BASE) % 2;
      c[i] := y % BASE;
      assert c[..i + 1] == u + [low];
      i := i + 1;
    }
    BorrowDone(s, t, c[..wa], borrow);
  }

  lemma {:induction false} BorrowStart(s: seq<Word>, t: seq<Word>)
    ensures Borrowing(s, t, [], 0)
  {
  }

  lemma {:induction false} BorrowDone(s: seq<Word>, t: seq<Word>, c: seq<Word>, borrow: int)
    requires |s| == |t| == |c| && Borrowing(s, t, c, borrow) && Val(s) >= Val(t)
    ensures borrow == 0 && Val(c) == Val(s) - Val(t)
  {
    hide Val, Weight, Pow;
    assert s[..|c|] == s && t[..|c|] == t;
    ValBound(c);
  }

  /** diff: |a - b| in a new number, sign 1 exactly when a < b. */
  method Diff(a0: Bigint, b0: Bigint) returns (c: Bigint)
    requires a0.Valid() && b0.Valid() && a0.wds > 0 && b0.wds > 0
    ensures fresh(c) && fresh(c.x) && c.Valid() && c.wds > 0
    ensures c.sign == (if a0.Value() < b0.Value() then 1 else 0)
    ensures c.Value() == (if a0.Value() < b0.Value() then b0.Value() - a0.Value() else a0.Value() - b0.Value())
  {
    hide Val, Weight, Pow;
    var a, b := a0, b0;
    var i := Cmp(a, b);
    if i == 0 {
      c := new Bigint.Balloc(0);
      PowOne(2);
      c.wds := 1;
      c.x[0] := 0;
      ValOneWord(c.x[..1]);
      return;
    }
    if i < 0 {
      a, b := b, a;
      i := 1;
    } else {
      i := 0;
    }
    c := new Bigint.Balloc(a.k);
    c.sign := i;
    DiffOrder(a, b);
    SubtractWords(c.x, a, b);
    var wa := TrimDiff(c, a.wds);
    c.wds := wa;
  }

  lemma {:induction false} DiffOrder(a: Bigint, b: Bigint)
    requires a.Valid() && b.Valid() && a.Value() > b.Value()
    ensures b.wds <= a.wds
  {
    if a.wds < b.wds {
      FewerWords(a, b);
    }
  }

  /** Dropping leading zero words of a non-zero difference. */
  method TrimDiff(c: Bigint, wa0: nat) returns (wa: nat)
    requires wa0 <= c.x.Length && Val(c.x[..wa0]) > 0
    ensures 0 < wa <= wa0 && c.x[wa - 1] != 0 && Val(c.x[..wa]) == Val(c.x[..wa0])
  {
    hide Val, Weight, Pow;
    wa := wa0;
    if wa == 0 {
      ValEmpty(c.x[..0]);
    }
    while c.x[wa - 1] == 0
      invariant 0 < wa <= wa0 && Val(c.x[..wa]) == Val(c.x[..wa0])
      decreases wa
    {
      ValZeros(c.x[..wa], wa - 1);
      assert c.x[..wa][..wa - 1] == c.x[..wa - 1];
      if wa == 1 {
        ValEmpty(c.x[..0]);
      }
      wa := wa - 1;
    }
  }
}
