/** Little-endian sequences of 32-bit words and the natural numbers they denote. */
module Words {
  import opened Arith

  const BASE: nat := 0x1_0000_0000

  /** The source's ULong. */
  type Word = w: int | 0 <= w < BASE

  function Weight(i: nat): (r: nat)
    ensures r > 0
  {
    Pow(BASE, i)
  }

  lemma {:induction false} WeightAdd(i: nat, j: nat)
    ensures Weight(i + j) == Weight(i) * Weight(j)
  {
    PowAdd(BASE, i, j);
  }

  /** The number a word sequence denotes, least significant word first. */
  function Val(s: seq<Word>): (r: nat)
  {
    if s == [] then 0 else Val(s[..|s| - 1]) + s[|s| - 1] * Weight(|s| - 1)
  }

  lemma {:induction false} ValEmpty(s: seq<Word>)
    requires |s| == 0
    ensures Val(s) == 0
  {
  }

  /** One more word on top, as a loop over a longer sequence meets it. */
  lemma {:induction false} ValStep(s: seq<Word>, i: nat)
    requires i < |s|
    ensures Val(s[..i + 1]) == Val(s[..i]) + s[i] * Weight(i)
    ensures Weight(i + 1) == BASE * Weight(i)
  {
    assert s[..i + 1][..i] == s[..i];
  }

  lemma {:induction false} ValBound(s: seq<Word>)
    ensures Val(s) < Weight(|s|)
  {
    if s != [] {
      var n := |s| - 1;
      ValBound(s[..n]);
      MulLe(s[n] as int + 1, BASE, Weight(n));
      assert (s[n] + 1) * Weight(n) == s[n] * Weight(n) + Weight(n);
    }
  }

  /** A non-zero top word bounds the value from below. */
  lemma {:induction false} ValTop(s: seq<Word>)
    requires s != []
    ensures s[|s| - 1] * Weight(|s| - 1) <= Val(s) < (s[|s| - 1] + 1) * Weight(|s| - 1)
    ensures s[|s| - 1] != 0 ==> Weight(|s| - 1) <= Val(s)
  {
    var n := |s| - 1;
    ValBound(s[..n]);
    assert (s[n] + 1) * Weight(n) == s[n] * Weight(n) + Weight(n);
    if s[n] != 0 {
      MulLe(1, s[n], Weight(n));
    }
  }

  lemma {:induction false} ValAppend(s: seq<Word>, t: seq<Word>)
    ensures Val(s + t) == Val(s) + Weight(|s|) * Val(t)
  {
    if t == [] {
      assert s + t == s;
    } else {
      var n := |t| - 1;
      ValAppend(s, t[..n]);
      assert (s + t)[..|s + t| - 1] == s + t[..n];
      PowAdd(BASE, |s|, n);
      assert Weight(|s| + n) == Weight(|s|) * Weight(n);
      Rearrange(Weight(|s|), Val(t[..n]), t[n], Weight(n));
    }
  }

  lemma {:induction false} Rearrange(a: int, b: int, c: int, d: int)
    ensures a * b + c * (a * d) == a * (b + c * d)
  {
  }

  /** Writing one word moves the value by the difference at that word's weight. */
  lemma {:induction false} ValUpdate(s: seq<Word>, i: nat, w: Word)
    requires i < |s|
    ensures Val(s[i := w]) == Val(s) + (w - s[i]) * Weight(i)
  {
    var n := |s| - 1;
    var u := s[i := w];
    if i == n {
      assert u[..n] == s[..n];
      assert (w - s[i]) * Weight(n) == w * Weight(n) - s[i] * Weight(n);
    } else {
      ValUpdate(s[..n], i, w);
      assert u[..n] == s[..n][i := w];
    }
  }

  /** High words that are zero do not count. */
  lemma {:induction false} ValZeros(s: seq<Word>, n: nat)
    requires n <= |s| && forall i :: n <= i < |s| ==> s[i] == 0
    ensures Val(s) == Val(s[..n])
  {
    if n == |s| {
      assert s[..n] == s;
    } else {
      var m := |s| - 1;
      ValZeros(s[..m], n);
      assert s[..m][..n] == s[..n];
    }
  }

  /** A value that reaches the weight of the top word has a non-zero top word. */
  lemma {:induction false} TopNonZero(s: seq<Word>)
    requires s != [] && Weight(|s| - 1) <= Val(s)
    ensures s[|s| - 1] != 0
  {
    ValTop(s);
  }

  /** Equal low parts and a smaller word above mean a smaller number. */
  lemma {:induction false} ValTopLess(s: seq<Word>, t: seq<Word>)
    requires |s| == |t| > 0 && s[|s| - 1] < t[|t| - 1]
    ensures Val(s) < Val(t)
  {
    var n := |s| - 1;
    ValTop(s);
    ValTop(t);
    MulLe(s[n] as int + 1, t[n], Weight(n));
  }

  /** The highest word in which two numbers differ decides their order. */
  lemma {:induction false} ValCompare(s: seq<Word>, t: seq<Word>, i: nat)
    requires |s| == |t| && i < |s| && s[i] < t[i] && s[i + 1..] == t[i + 1..]
    ensures Val(s) < Val(t)
  {
    var n := |s| - 1;
    if i == n {
      ValTopLess(s, t);
    } else {
      assert s[n] == s[i + 1..][n - i - 1] && t[n] == t[i + 1..][n - i - 1];
      assert s[..n][i + 1..] == s[i + 1..][..n - i - 1] && t[..n][i + 1..] == t[i + 1..][..n - i - 1];
      ValCompare(s[..n], t[..n], i);
    }
  }
}
