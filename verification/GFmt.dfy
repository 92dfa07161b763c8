/** The number printer of g_fmt.c: it lays out the digits and decimal point that dtoa returns. */
module GFmt {
  import opened Arith
  import opened Bytes
  import opened Options
  import opened Decimals

  const ZERO: Byte := '0' as int
  const POINT: Byte := '.' as int
  const MINUS: Byte := '-' as int
  const PLUS: Byte := '+' as int
  const LETTER_E: Byte := 'e' as int

  /** What dtoa hands over: the digits and the place of the point, or the text of an infinity or NaN. */
  datatype Converted = Finite(digits: seq<Digit>, decpt: int) | Special(text: seq<Byte>)

  function Char(d: Digit): (r: Byte)
  {
    ZERO + d
  }

  function Chars(s: seq<Digit>): (r: seq<Byte>)
    ensures |r| == |s|
  {
    seq(|s|, i requires 0 <= i < |s| => Char(s[i]))
  }

  function Zeros(n: nat): (r: seq<Digit>)
    ensures |r| == n
  {
    seq(n, i => 0)
  }

  function Sign(neg: bool): (r: seq<Byte>)
  {
    if neg then [MINUS] else []
  }

  // ---- what a decimal text means ----

  /** mantissa * 10^exponent, negated or not. */
  datatype Meaning = Meaning(neg: bool, mantissa: nat, exponent: int)

  /** Reading digits, at most one point and an exponent from left to right. */
  function Read(t: seq<Byte>, neg: bool, mantissa: nat, places: nat, point: bool): (r: Option<Meaning>)
  {
    if t == [] then Some(Meaning(neg, mantissa, -(places as int)))
    else if IsDigit(t[0]) then
      Read(t[1..], neg, 10 * mantissa + (t[0] - '0' as int), if point then places + 1 else places, point)
    else if t[0] == '.' as int && !point then Read(t[1..], neg, mantissa, places, true)
    else if t[0] == 'e' as int then
      match ReadExponent(t[1..])
      case Some(e) => Some(Meaning(neg, mantissa, e - places))
      case None => None
    else None
  }

  /** A sign and at least one digit. */
  function ReadExponent(t: seq<Byte>): (r: Option<int>)
  {
    if |t| < 2 || (t[0] != '-' as int && t[0] != '+' as int) then None
    else
      match ReadDigits(t[1..], 0)
      case Some(n) => Some(if t[0] == '-' as int then -(n as int) else n)
      case None => None
  }

  function ReadDigits(t: seq<Byte>, n: nat): (r: Option<nat>)
  {
    if t == [] then Some(n)
    else if IsDigit(t[0]) then ReadDigits(t[1..], 10 * n + (t[0] - '0' as int))
    else None
  }

  function ReadText(t: seq<Byte>): (r: Option<Meaning>)
  {
    if t != [] && t[0] == '-' as int then Read(t[1..], true, 0, 0, false) else Read(t, false, 0, 0, false)
  }

  /** m * 10^e and n * 10^f are the same number. */
  predicate SameNumber(m: nat, e: int, n: nat, f: int)
  {
    m * Pow(10, Pos(e - f)) == n * Pow(10, Pos(f - e))
  }

  // ---- the three layouts ----

  /** n in exactly j digits, or its last j. */
  function LastDigits(n: nat, j: nat): (r: seq<Digit>)
    ensures |r| == j
  {
    if j == 0 then [] else LastDigits(n / 10, j - 1) + [n % 10]
  }

  /** The digits of an exponent: at least two, and no more than needed. */
  predicate ExponentWidth(n: nat, j: nat)
  {
    j >= 2 && n < Pow(10, j) && (j > 2 ==> Pow(10, j - 1) <= n)
  }

  predicate Exponential(decpt: int, precision: nat)
  {
    decpt <= -4 || decpt > precision
  }

  function Abs(x: int): (r: nat)
  {
    if x < 0 then -x else x
  }

  function Mantissa(s: seq<Digit>): (r: seq<Byte>)
    requires s != []
  {
    [Char(s[0])] + if |s| > 1 then [POINT] + Chars(s[1..]) else []
  }

  /** The j of ExponentWidth. */
  function Width(n: nat): (r: nat)
    ensures r >= 2
  {
    if n < 100 then 2 else 1 + Width(n / 10)
  }

  function ExponentChars(n: nat): (r: seq<Byte>)
  {
    Chars(LastDigits(n, Width(n)))
  }

  function ExponentPart(x: int): (r: seq<Byte>)
  {
    [LETTER_E, if x < 0 then MINUS else PLUS] + ExponentChars(Abs(x))
  }

  /** The text after the sign. */
  function Layout(s: seq<Digit>, decpt: int, precision: nat): (r: seq<Byte>)
    requires s != []
  {
    if Exponential(decpt, precision) then
      Mantissa(s) + ExponentPart(decpt - 1)
    else if decpt <= 0 then [ZERO, POINT] + Chars(Zeros(-decpt)) + Chars(s)
    else if |s| <= decpt then Chars(s) + Chars(Zeros(decpt - |s|))
    else Chars(s[..decpt]) + [POINT] + Chars(s[decpt..])
  }

  // ---- their meaning ----

  /** Reading digits goes on after them. */
  lemma {:induction false} ReadChars(s: seq<Digit>, t: seq<Byte>, neg: bool, mantissa: nat, places: nat, point: bool)
    ensures Read(Chars(s) + t, neg, mantissa, places, point)
      == Read(t, neg, mantissa * Pow(10, |s|) + DigitsVal(s), if point then places + |s| else places, point)
    decreases |s|
  {
    if s == [] {
      assert Chars(s) + t == t;
      assert DigitsVal(s) == 0 && Pow(10, 0) == 1;
    } else {
      hide Read, DigitsVal, Pow;
      var rest := s[1..];
      assert Chars(s) + t == [Char(s[0])] + (Chars(rest) + t);
      ReadOne(s[0], Chars(rest) + t, neg, mantissa, places, point);
      var more := 10 * mantissa + s[0];
      ReadChars(rest, t, neg, more, if point then places + 1 else places, point);
      DigitsFirst(s);
      Shifted(mantissa, s[0], Pow(10, |rest|), DigitsVal(rest));
    }
  }

  lemma {:induction false} ReadOne(d: Digit, t: seq<Byte>, neg: bool, mantissa: nat, places: nat, point: bool)
    ensures Read([Char(d)] + t, neg, mantissa, places, point)
      == Read(t, neg, 10 * mantissa + d, if point then places + 1 else places, point)
  {
    assert ([Char(d)] + t)[1..] == t;
  }

  lemma {:induction false} Shifted(m: nat, d: nat, p: nat, v: nat)
    ensures (10 * m + d) * p + v == m * (10 * p) + (d * p + v)
  {
  }

  lemma {:induction false} DigitsFirst(s: seq<Digit>)
    requires s != []
    ensures DigitsVal(s) == s[0] * Pow(10, |s| - 1) + DigitsVal(s[1..])
    ensures Pow(10, |s|) == 10 * Pow(10, |s| - 1)
    decreases |s|
  {
    if |s| > 1 {
      var front, d := s[..|s| - 1], s[|s| - 1];
      DigitsFirst(front);
      assert front[1..] + [d] == s[1..];
      DigitsSnoc(front[1..], d);
      TenShift(s[0], Pow(10, |front| - 1), DigitsVal(front[1..]), d);
    } else {
      assert s[..0] == [] && s[1..] == [];
    }
  }

  lemma {:induction false} TenShift(a: nat, p: nat, v: nat, d: nat)
    ensures 10 * (a * p + v) + d == a * (10 * p) + (10 * v + d)
  {
  }

  lemma {:induction false} ZerosVal(n: nat)
    ensures DigitsVal(Zeros(n)) == 0
  {
    if n > 0 {
      assert Zeros(n)[..n - 1] == Zeros(n - 1);
      ZerosVal(n - 1);
    }
  }

  lemma {:induction false} DigitsAppend(a: seq<Digit>, b: seq<Digit>)
    ensures DigitsVal(a + b) == DigitsVal(a) * Pow(10, |b|) + DigitsVal(b)
  {
    if b == [] {
      assert a + b == a;
    } else {
      var front, d := b[..|b| - 1], b[|b| - 1];
      DigitsAppend(a, front);
      assert a + b == (a + front) + [d];
      DigitsSnoc(a + front, d);
      TenShift(DigitsVal(a), Pow(10, |front|), DigitsVal(front), d);
    }
  }

  lemma {:induction false} ReadAll(s: seq<Digit>, n: nat)
    ensures ReadDigits(Chars(s), n) == Some(n * Pow(10, |s|) + DigitsVal(s))
    decreases |s|
  {
    if s != [] {
      var u := Chars(s);
      assert u[0] == Char(s[0]) && u[1..] == Chars(s[1..]);
      ReadAll(s[1..], 10 * n + s[0]);
      DigitsFirst(s);
      Shifted(n, s[0], Pow(10, |s| - 1), DigitsVal(s[1..]));
    }
  }

  lemma {:induction false} LastDigitsVal(n: nat, j: nat)
    requires n < Pow(10, j)
    ensures DigitsVal(LastDigits(n, j)) == n
  {
    if j > 0 {
      LastDigitsVal(n / 10, j - 1);
      DigitsSnoc(LastDigits(n / 10, j - 1), n % 10);
    }
  }

  /** The digits are determined by their number and value. */
  lemma {:induction false} LastDigitsUnique(e: seq<Digit>)
    ensures e == LastDigits(DigitsVal(e), |e|)
  {
    if e != [] {
      LastDigitsUnique(e[..|e| - 1]);
      assert e == e[..|e| - 1] + [e[|e| - 1]];
    }
  }

  lemma {:induction false} WidthFits(n: nat)
    ensures ExponentWidth(n, Width(n))
  {
    PowTen();
    if n >= 100 {
      WidthFits(n / 10);
      var j := Width(n / 10);
      assert Pow(10, j + 1) == 10 * Pow(10, j);
      assert Pow(10, j) == 10 * Pow(10, j - 1);
    }
  }

  lemma {:induction false} PowTen()
    ensures Pow(10, 0) == 1 && Pow(10, 1) == 10 && Pow(10, 2) == 100
  {
    assert Pow(10, 1) == 10 * Pow(10, 0);
    assert Pow(10, 2) == 10 * Pow(10, 1);
  }

  lemma {:induction false} WidthUnique(n: nat, j: nat)
    requires ExponentWidth(n, j)
    ensures j == Width(n)
  {
    WidthFits(n);
    if j < Width(n) {
      PowMono(10, j, Width(n) - 1);
    } else if Width(n) < j {
      PowMono(10, Width(n), j - 1);
    }
  }

  lemma {:induction false} ReadFirst(s: seq<Digit>, t: seq<Byte>, neg: bool)
    ensures Read(Chars(s) + t, neg, 0, 0, false) == Read(t, neg, DigitsVal(s), 0, false)
  {
    ReadChars(s, t, neg, 0, 0, false);
    hide Read, DigitsVal;
  }

  lemma {:induction false} ReadPoint(t: seq<Byte>, neg: bool, m: nat)
    ensures Read([POINT] + t, neg, m, 0, false) == Read(t, neg, m, 0, true)
  {
    assert ([POINT] + t)[1..] == t;
  }

  /** The point and the digits after it. */
  lemma {:induction false} ReadRest(a: seq<Digit>, b: seq<Digit>, t: seq<Byte>, neg: bool)
    ensures Read([POINT] + (Chars(b) + t), neg, DigitsVal(a), 0, false) == Read(t, neg, DigitsVal(a + b), |b|, true)
  {
    ReadPoint(Chars(b) + t, neg, DigitsVal(a));
    ReadChars(b, t, neg, DigitsVal(a), 0, true);
    DigitsAppend(a, b);
    hide Read, DigitsVal;
  }

  lemma {:induction false} ReadExponentPart(neg: bool, m: nat, places: nat, point: bool, x: int)
    ensures Read(ExponentPart(x), neg, m, places, point)
      == Some(Meaning(neg, m, x - places))
  {
    var n := Abs(x);
    WidthFits(n);
    var e := LastDigits(n, Width(n));
    LastDigitsVal(n, Width(n));
    ReadAll(e, 0);
    var t := ExponentPart(x);
    assert t[1..] == [if x < 0 then MINUS else PLUS] + Chars(e);
    hide ReadDigits, DigitsVal, LastDigits, Width, Pow;
    ReadSigned(e, x);
  }

  lemma {:induction false} ReadSigned(e: seq<Digit>, x: int)
    requires e != [] && ReadDigits(Chars(e), 0) == Some(Abs(x))
    ensures ReadExponent([if x < 0 then MINUS else PLUS] + Chars(e)) == Some(x)
  {
    hide ReadDigits;
    var t := [if x < 0 then MINUS else PLUS] + Chars(e);
    assert t[1..] == Chars(e);
  }

  /** Whatever dtoa's digits and point, the text denotes the number they stand for. */
  lemma {:induction false} LayoutMeans(s: seq<Digit>, decpt: int, precision: nat, neg: bool)
    requires s != []
    ensures var r := Read(Layout(s, decpt, precision), neg, 0, 0, false);
      && r.Some? && r.value.neg == neg
      && SameNumber(r.value.mantissa, r.value.exponent, DigitsVal(s), decpt - |s|)
  {
    if Exponential(decpt, precision) {
      ExponentialMeans(s, decpt, precision, neg);
    } else if decpt <= 0 {
      FractionMeans(s, decpt, precision, neg);
    } else {
      PlainMeans(s, decpt, precision, neg);
    }
  }

  lemma {:induction false} Same(m: nat, e: int)
    ensures SameNumber(m, e, m, e)
  {
  }

  lemma {:induction false} ExponentialMeans(s: seq<Digit>, decpt: int, precision: nat, neg: bool)
    requires s != [] && Exponential(decpt, precision)
    ensures Read(Layout(s, decpt, precision), neg, 0, 0, false) == Some(Meaning(neg, DigitsVal(s), decpt - |s|))
    ensures SameNumber(DigitsVal(s), decpt - |s|, DigitsVal(s), decpt - |s|)
  {
    hide Read, DigitsVal, SameNumber, ExponentPart;
    var exp := ExponentPart(decpt - 1);
    Same(DigitsVal(s), decpt - |s|);
    if |s| == 1 {
      assert Layout(s, decpt, precision) == Chars(s) + exp;
      ReadFirst(s, exp, neg);
      ReadExponentPart(neg, DigitsVal(s), 0, false, decpt - 1);
    } else {
      var first, rest := [s[0]], s[1..];
      assert first + rest == s;
      assert Layout(s, decpt, precision) == Chars(first) + ([POINT] + (Chars(rest) + exp));
      ReadFirst(first, [POINT] + (Chars(rest) + exp), neg);
      ReadRest(first, rest, exp, neg);
      ReadExponentPart(neg, DigitsVal(s), |s| - 1, true, decpt - 1);
    }
  }

  lemma {:induction false} FractionMeans(s: seq<Digit>, decpt: int, precision: nat, neg: bool)
    requires s != [] && !Exponential(decpt, precision) && decpt <= 0
    ensures Read(Layout(s, decpt, precision), neg, 0, 0, false) == Some(Meaning(neg, DigitsVal(s), decpt - |s|))
    ensures SameNumber(DigitsVal(s), decpt - |s|, DigitsVal(s), decpt - |s|)
  {
    hide DigitsVal, SameNumber;
    var z := Zeros(-decpt);
    Same(DigitsVal(s), decpt - |s|);
    assert Layout(s, decpt, precision) == Chars(Zeros(1)) + ([POINT] + (Chars(z + s) + []));
    ReadFirst(Zeros(1), [POINT] + (Chars(z + s) + []), neg);
    ReadRest(Zeros(1), z + s, [], neg);
    assert Zeros(1) + (z + s) == Zeros(1 - decpt) + s;
    DigitsAppend(Zeros(1 - decpt), s);
    ZerosVal(1 - decpt);
  }

  lemma {:induction false} PlainMeans(s: seq<Digit>, decpt: int, precision: nat, neg: bool)
    requires s != [] && !Exponential(decpt, precision) && decpt > 0
    ensures var r := Read(Layout(s, decpt, precision), neg, 0, 0, false);
      && r.Some? && r.value.neg == neg
      && SameNumber(r.value.mantissa, r.value.exponent, DigitsVal(s), decpt - |s|)
  {
    hide DigitsVal;
    if |s| <= decpt {
      var z := Zeros(decpt - |s|);
      assert Layout(s, decpt, precision) == Chars(s + z) + [];
      ReadFirst(s + z, [], neg);
      DigitsAppend(s, z);
      ZerosVal(decpt - |s|);
    } else {
      var a, b := s[..decpt], s[decpt..];
      assert a + b == s;
      assert Layout(s, decpt, precision) == Chars(a) + ([POINT] + (Chars(b) + []));
      ReadFirst(a, [POINT] + (Chars(b) + []), neg);
      ReadRest(a, b, [], neg);
      Same(DigitsVal(s), decpt - |s|);
      hide SameNumber;
    }
  }

  /** The sign is read back too. */
  lemma {:induction false} PrintedMeans(s: seq<Digit>, decpt: int, precision: nat, neg: bool)
    requires s != []
    ensures var r := ReadText(Sign(neg) + Layout(s, decpt, precision));
      && r.Some? && r.value.neg == neg
      && SameNumber(r.value.mantissa, r.value.exponent, DigitsVal(s), decpt - |s|)
  {
    var t := Layout(s, decpt, precision);
    assert (Sign(true) + t)[1..] == t;
    assert Sign(false) + t == t;
    LayoutStart(s, decpt, precision);
    LayoutMeans(s, decpt, precision, neg);
    hide Layout, SameNumber, Read, DigitsVal;
  }

  lemma {:induction false} LayoutStart(s: seq<Digit>, decpt: int, precision: nat)
    requires s != []
    ensures var t := Layout(s, decpt, precision); t != [] && IsDigit(t[0])
  {
  }

  // ---- which layout it is ----

  predicate AllDigits(t: seq<Byte>)
  {
    forall c | c in t :: IsDigit(c)
  }

  lemma {:induction false} CharsDigits(s: seq<Digit>)
    ensures AllDigits(Chars(s)) && (s != [] ==> (Chars(s)[0] == '0' as int <==> s[0] == 0))
  {
    forall c | c in Chars(s)
      ensures IsDigit(c)
    {
      var i :| 0 <= i < |s| && c == Chars(s)[i];
    }
  }

  /** There is an exponent exactly for very small and very large numbers: a point or above the precision, or four or
      more places below the first digit. It follows one digit and the others behind the point, has a sign, and two
      digits or as many as it needs. */
  lemma {:induction false} ExponentialShape(s: seq<Digit>, decpt: int, precision: nat)
    returns (m: seq<Byte>, e: seq<Byte>)
    requires s != [] && (decpt <= -4 || decpt > precision)
    ensures Layout(s, decpt, precision) == m + ['e' as int, if decpt <= 0 then '-' as int else '+' as int] + e
    ensures m != [] && IsDigit(m[0]) && |m| == (if |s| == 1 then 1 else |s| + 1)
    ensures |m| > 1 ==> m[1] == '.' as int && AllDigits(m[2..])
    ensures AllDigits(e) && |e| >= 2 && (e[0] == '0' as int ==> |e| == 2)
  {
    m, e := Mantissa(s), ExponentChars(Abs(decpt - 1));
    CharsDigits(s[1..]);
    if |s| > 1 {
      assert m[2..] == Chars(s[1..]);
    }
    hide ExponentChars;
    ExponentShape(Abs(decpt - 1));
  }

  lemma {:induction false} ExponentShape(n: nat)
    ensures var e := ExponentChars(n); AllDigits(e) && |e| >= 2 && (e[0] == '0' as int ==> |e| == 2)
  {
    hide Width, LastDigits, Pow, DigitsVal, Chars;
    var x := LastDigits(n, Width(n));
    WidthFits(n);
    LastDigitsVal(n, Width(n));
    CharsDigits(x);
    if x[0] == 0 && |x| > 2 {
      DigitsFirst(x);
      DigitsBelow(x[1..]);
    }
  }

  lemma {:induction false} DigitsBelow(s: seq<Digit>)
    ensures DigitsVal(s) < Pow(10, |s|)
  {
    if s != [] {
      DigitsBelow(s[..|s| - 1]);
      assert Pow(10, |s|) == 10 * Pow(10, |s| - 1);
    }
  }

  /** Otherwise there is none: a number below one begins with a zero and the point, one with digits behind the point
      has it after decpt of them, and a whole number is filled up with zeros and has no point. */
  lemma {:induction false} PlainShape(s: seq<Digit>, decpt: int, precision: nat)
    requires s != [] && -4 < decpt <= precision
    ensures var t := Layout(s, decpt, precision);
      if decpt <= 0 then |t| == 2 - decpt + |s| && t[0] == '0' as int && t[1] == '.' as int && AllDigits(t[2..])
      else if |s| <= decpt then |t| == decpt && AllDigits(t)
      else
        && |t| == |s| + 1 && AllDigits(t[..decpt])
        && t[decpt] == '.' as int && AllDigits(t[decpt + 1..])
  {
    var t := Layout(s, decpt, precision);
    CharsDigits(s);
    if decpt <= 0 {
      CharsDigits(Zeros(-decpt));
      assert t[2..] == Chars(Zeros(-decpt)) + Chars(s);
    } else if |s| <= decpt {
      CharsDigits(Zeros(decpt - |s|));
    } else {
      CharsDigits(s[..decpt]);
      CharsDigits(s[decpt..]);
      assert t[..decpt] == Chars(s[..decpt]);
      assert t[decpt + 1..] == Chars(s[decpt..]);
    }
  }

  /** The text and its terminator fit the buffer, for the exponents doubles have. */
  lemma {:induction false} LayoutFits(s: seq<Digit>, decpt: int, precision: nat)
    requires 0 < |s| <= precision <= 14 && -400 <= decpt <= 400
    ensures |NumberText(true, s, decpt, precision)| + 1 <= 32
  {
    WidthSmall(Abs(decpt - 1));
  }

  lemma {:induction false} WidthSmall(n: nat)
    requires n < 1000
    ensures Width(n) <= 3
  {
  }

  // ---- number texts ----

  /** What dtoa returns for a finite number and a precision up to 14: no leading zero, except for zero itself. */
  predicate FromDtoa(s: seq<Digit>, decpt: int, precision: nat)
  {
    0 < |s| <= precision <= 14 && -400 <= decpt <= 400 && (s[0] != 0 || (s == [0] && decpt == 1))
  }

  function NumberText(neg: bool, s: seq<Digit>, decpt: int, precision: nat): (r: seq<Byte>)
    requires s != []
  {
    Sign(neg) + Layout(s, decpt, precision)
  }

  /** A text that fpconv_g_fmt prints for a finite number. */
  ghost predicate Printable(t: seq<Byte>)
  {
    exists neg, s, decpt, precision :: FromDtoa(s, decpt, precision) && t == NumberText(neg, s, decpt, precision)
  }

  // ---- the printer itself ----

  /** *b++ = c */
  method Put(b: array<Byte>, p: nat, c: Byte) returns (q: nat)
    requires p < b.Length
    modifies b
    ensures q == p + 1 && b[..q] == old(b[..p]) + [c]
  {
    b[p] := c;
    return p + 1;
  }

  /** The loop that copies digits. */
  method PutDigits(b: array<Byte>, p: nat, s: seq<Digit>) returns (q: nat)
    requires p + |s| <= b.Length
    modifies b
    ensures q == p + |s| && b[..q] == old(b[..p]) + Chars(s)
  {
    q := p;
    var i := 0;
    while i < |s|
      invariant 0 <= i <= |s| && q == p + i && b[..q] == old(b[..p]) + Chars(s[..i])
    {
      b[q] := Char(s[i]);
      q := q + 1;
      i := i + 1;
      assert b[..q - 1] == old(b[..p]) + Chars(s[..i - 1]);
      assert Chars(s[..i]) == Chars(s[..i - 1]) + [Char(s[i - 1])];
    }
    assert s[..i] == s;
  }

  /** Zeros in front of or behind the digits. */
  method PutZeros(b: array<Byte>, p: nat, n: nat) returns (q: nat)
    requires p + n <= b.Length
    modifies b
    ensures q == p + n && b[..q] == old(b[..p]) + Chars(Zeros(n))
  {
    q := p;
    var left := n;
    while left > 0
      invariant 0 <= left <= n && q == p + n - left && b[..q] == old(b[..p]) + Chars(Zeros(n - left))
    {
      b[q] := ZERO;
      q := q + 1;
      left := left - 1;
      assert b[..q - 1] == old(b[..p]) + Chars(Zeros(n - left - 1));
    }
  }

  /** t digits e have been printed of n, and decpt is what is left of it, moved up. */
  ghost predicate PrintedTo(n: nat, e: seq<Digit>, k: nat, decpt: nat)
  {
    n * Pow(10, |e|) == DigitsVal(e) * (10 * k) + decpt && decpt < 10 * k
  }

  lemma {:induction false} PrintStart(n: nat, k: nat)
    requires n < 10 * k
    ensures PrintedTo(n, [], k, n)
  {
    assert Pow(10, 0) == 1 && DigitsVal([]) == 0;
  }

  lemma {:induction false} PrintStep(n: nat, e: seq<Digit>, k: nat, decpt: nat)
    requires PrintedTo(n, e, k, decpt) && k > 0
    ensures decpt / k < 10
    ensures PrintedTo(n, e + [decpt / k], k, (decpt - decpt / k * k) * 10)
  {
    var i, r := decpt / k, decpt % k;
    QuotientBelow(decpt, k);
    assert decpt == i * k + r;
    DigitsSnoc(e, i);
    assert Pow(10, |e| + 1) == 10 * Pow(10, |e|);
    PrintSum(n, Pow(10, |e|), DigitsVal(e), k, i, r);
  }

  lemma {:induction false} QuotientBelow(x: nat, k: nat)
    requires k > 0 && x < 10 * k
    ensures x / k < 10
  {
    var q := x / k;
    assert x == q * k + x % k;
    if q >= 10 {
      MulLe(10, q, k);
    }
  }

  lemma {:induction false} PrintSum(n: nat, p: nat, v: nat, k: nat, i: nat, r: nat)
    requires n * p == v * (10 * k) + (i * k + r)
    ensures n * (10 * p) == (10 * v + i) * (10 * k) + r * 10
  {
    calc {
      n * (10 * p);
      10 * (n * p);
      10 * (v * (10 * k) + (i * k + r));
      10 * (v * (10 * k)) + 10 * (i * k) + 10 * r;
      (10 * v) * (10 * k) + i * (10 * k) + r * 10;
      (10 * v + i) * (10 * k) + r * 10;
    }
  }

  /** After j digits, k being 10^(j-1), exactly n has been printed. */
  lemma {:induction false} PrintEnd(n: nat, e: seq<Digit>, k: nat, decpt: nat)
    requires |e| > 0 && PrintedTo(n, e, k, decpt) && k == Pow(10, |e| - 1)
    ensures e == LastDigits(n, |e|)
  {
    assert Pow(10, |e|) == 10 * k;
    MultipleBelow(n, DigitsVal(e), 10 * k, decpt);
    LastDigitsUnique(e);
  }

  lemma {:induction false} MultipleBelow(n: nat, v: nat, m: nat, r: nat)
    requires n * m == v * m + r && r < m
    ensures n == v
  {
    if n < v {
      MulLe(n + 1, v, m);
    } else if n > v {
      MulLe(v + 1, n, m);
    }
  }

  /** The loop that finds the width of an exponent and the power of ten of its first digit. */
  method FindWidth(n: nat) returns (j: nat, k: nat)
    ensures j == Width(n) && j > 0 && k == Pow(10, j - 1) && n < 10 * k
  {
    hide Pow, Width;
    PowTen();
    j, k := 2, 10;
    while 10 * k <= n
      invariant j >= 2 && k == Pow(10, j - 1) && k > 0 && (j > 2 ==> k <= n)
      decreases n - k
    {
      PowNext(10, j);
      j, k := j + 1, 10 * k;
    }
    PowNext(10, j);
    WidthUnique(n, j);
  }

  /** The exponent: each digit is divided off the top. */
  method PutExponent(b: array<Byte>, p: nat, n: nat) returns (q: nat)
    requires p + Width(n) <= b.Length
    modifies b
    ensures q == p + Width(n) && b[..q] == old(b[..p]) + ExponentChars(n)
  {
    hide Pow, DigitsVal, PrintedTo, Width, LastDigits;
    var j, k := FindWidth(n);
    var decpt: nat := n;
    ghost var e: seq<Digit> := [];
    PrintStart(n, k);
    q := p;
    assert b[..q] == old(b[..p]) + Chars(e);
    var left := j;
    while true
      invariant 0 < left <= j && |e| == j - left && q == p + |e| && PrintedTo(n, e, k, decpt)
      invariant b[..q] == old(b[..p]) + Chars(e)
      decreases left
    {
      PrintStep(n, e, k, decpt);
      var i := decpt / k;
      assert Chars(e + [i]) == Chars(e) + [Char(i)];
      q := Put(b, q, Char(i));
      e := e + [i];
      left := left - 1;
      if left <= 0 {
        PrintEnd(n, e, k, (decpt - i * k) * 10);
        break;
      }
      Remainder(decpt, k);
      decpt := decpt - i * k;
      decpt := decpt * 10;
    }
  }

  lemma {:induction false} Remainder(x: nat, k: nat)
    requires k > 0
    ensures x - x / k * k >= 0
  {
  }

  /** The text for what dtoa handed over. */
  function TextOf(neg: bool, c: Converted, precision: nat): (r: seq<Byte>)
    requires c.Finite? ==> c.digits != []
  {
    Sign(neg) + match c
      case Finite(s, decpt) => Layout(s, decpt, precision)
      case Special(text) => text
  }

  /** fpconv_g_fmt: the text, a terminator, and the text's length. */
  method FpconvGFmt(b: array<Byte>, neg: bool, c: Converted, precision: nat) returns (len: nat)
    requires (c.Finite? ==> c.digits != []) && |TextOf(neg, c, precision)| < b.Length
    modifies b
    ensures len == |TextOf(neg, c, precision)| && b[..len] == TextOf(neg, c, precision) && b[len] == 0
  {
    hide Layout;
    var p := 0;
    if neg {
      p := Put(b, p, MINUS);
    }
    assert b[..p] == Sign(neg);
    match c {
      case Special(text) => p := PutText(b, p, text);
      case Finite(s, point) => p := PutFinite(b, p, s, point, precision);
    }
    b[p] := 0;
    assert b[..p] == TextOf(neg, c, precision);
    return p;
  }

  /** The name of an infinity or NaN. */
  method PutText(b: array<Byte>, p0: nat, text: seq<Byte>) returns (p: nat)
    requires p0 + |text| < b.Length
    modifies b
    ensures p == p0 + |text| && b[..p] == old(b[..p0]) + text
  {
    p := p0;
    var i := 0;
    while i < |text|
      invariant 0 <= i <= |text| && p == p0 + i && b[..p] == old(b[..p0]) + text[..i]
    {
      b[p] := text[i];
      p := p + 1;
      i := i + 1;
      assert b[..p - 1] == old(b[..p0]) + text[..i - 1];
    }
    assert text[..i] == text;
  }

  /** The three layouts. */
  method PutFinite(b: array<Byte>, p0: nat, s: seq<Digit>, point: int, precision: nat) returns (p: nat)
    requires s != [] && p0 + |Layout(s, point, precision)| < b.Length
    modifies b
    ensures p == p0 + |Layout(s, point, precision)| && b[..p] == old(b[..p0]) + Layout(s, point, precision)
  {
    p := p0;
    if point <= -4 || point > precision {
      p := PutExponential(b, p, s, point);
    } else if point <= 0 {
      p := PutFraction(b, p, s, point);
    } else {
      SoFarEnd(s, point, precision);
      p := PutPlain(b, p, s, point);
    }
  }

  method PutExponential(b: array<Byte>, p0: nat, s: seq<Digit>, point: int) returns (p: nat)
    requires s != [] && p0 + |Mantissa(s) + ExponentPart(point - 1)| < b.Length
    modifies b
    ensures var text := Mantissa(s) + ExponentPart(point - 1);
      p == p0 + |text| && b[..p] == old(b[..p0]) + text
  {
    hide Width, LastDigits;
    hide Chars, Mantissa;
    p := PutMantissa(b, p0, s);
    p := Put(b, p, LETTER_E);
    var decpt := point - 1;
    if decpt < 0 {
      p := Put(b, p, MINUS);
      decpt := -decpt;
    } else {
      p := Put(b, p, PLUS);
    }
    p := PutExponent(b, p, decpt);
  }

  method PutMantissa(b: array<Byte>, p0: nat, s: seq<Digit>) returns (p: nat)
    requires s != [] && p0 + |Mantissa(s)| <= b.Length
    modifies b
    ensures p == p0 + |Mantissa(s)| && b[..p] == old(b[..p0]) + Mantissa(s)
  {
    hide Chars;
    p := Put(b, p0, Char(s[0]));
    if |s| > 1 {
      p := Put(b, p, POINT);
      p := PutDigits(b, p, s[1..]);
    }
  }

  method PutFraction(b: array<Byte>, p0: nat, s: seq<Digit>, point: int) returns (p: nat)
    requires s != [] && point <= 0 && p0 + 2 - point + |s| < b.Length
    modifies b
    ensures var text := [ZERO, POINT] + Chars(Zeros(-point)) + Chars(s);
      p == p0 + |text| && b[..p] == old(b[..p0]) + text
  {
    hide Chars;
    p := Put(b, p0, ZERO);
    p := Put(b, p, POINT);
    p := PutZeros(b, p, -point);
    p := PutDigits(b, p, s);
  }

  /** What the third layout has written after i digits. */
  function SoFar(s: seq<Digit>, point: nat, i: nat): (r: seq<Byte>)
    requires i <= |s| && s != [] && point > 0
  {
    if i < point || (i == point && i == |s|) then Chars(s[..i])
    else Chars(s[..point]) + [POINT] + Chars(s[point..i])
  }

  lemma {:induction false} SoFarStep(s: seq<Digit>, point: nat, i: nat)
    requires i < |s| && point > 0
    ensures SoFar(s, point, i + 1)
      == SoFar(s, point, i) + ([Char(s[i])] + if i + 1 == point && i + 1 < |s| then [POINT] else [])
    ensures |SoFar(s, point, i + 1)| <= |SoFar(s, point, |s|)|
  {
    assert Chars(s[..i + 1]) == Chars(s[..i]) + [Char(s[i])];
    if i + 1 == point {
      assert Chars(s[point..i + 1]) == [];
    } else if i >= point {
      assert Chars(s[point..i + 1]) == Chars(s[point..i]) + [Char(s[i])];
    }
  }

  lemma {:induction false} SoFarEnd(s: seq<Digit>, point: nat, precision: nat)
    requires s != [] && 0 < point <= precision
    ensures Layout(s, point, precision)
      == SoFar(s, point, |s|) + Chars(Zeros(if point > |s| then point - |s| else 0))
  {
    assert s[..|s|] == s;
    assert point < |s| ==> s[point..|s|] == s[point..];
  }

  /** The digits with the point between them, or zeros after them. */
  method PutPlain(b: array<Byte>, p0: nat, s: seq<Digit>, point: nat) returns (p: nat)
    requires s != [] && point > 0
    requires p0 + |SoFar(s, point, |s|)| + (if point > |s| then point - |s| else 0) < b.Length
    modifies b
    ensures var text := SoFar(s, point, |s|) + Chars(Zeros(if point > |s| then point - |s| else 0));
      p == p0 + |text| && b[..p] == old(b[..p0]) + text
  {
    hide SoFar, Chars;
    var decpt;
    p, decpt := PutPointed(b, p0, s, point);
    p := PutZeros(b, p, if decpt > 0 then decpt else 0);
  }

  /** The loop over the digits, counting the place of the point down. */
  method PutPointed(b: array<Byte>, p0: nat, s: seq<Digit>, point: nat) returns (p: nat, decpt: int)
    requires s != [] && point > 0 && p0 + |SoFar(s, point, |s|)| < b.Length
    modifies b
    ensures p == p0 + |SoFar(s, point, |s|)| && decpt == point - |s|
    ensures b[..p] == old(b[..p0]) + SoFar(s, point, |s|)
  {
    hide SoFar, Char;
    p := p0;
    decpt := point;
    var i := 0;
    SoFarStart(s, point);
    while i < |s|
      invariant 0 <= i <= |s| && decpt == point - i
      invariant p == p0 + |SoFar(s, point, i)| && p <= b.Length
      invariant b[..p] == old(b[..p0]) + SoFar(s, point, i)
    {
      SoFarStep(s, point, i);
      i := i + 1;
      decpt := decpt - 1;
      p := PutDigit(b, p, s[i - 1], decpt == 0 && i < |s|);
    }
  }

  lemma {:induction false} SoFarStart(s: seq<Digit>, point: nat)
    requires s != [] && point > 0
    ensures SoFar(s, point, 0) == []
  {
  }

  /** One turn: a digit, and the point when it comes next. */
  method PutDigit(b: array<Byte>, p0: nat, d: Digit, point: bool) returns (p: nat)
    requires p0 + (if point then 2 else 1) <= b.Length
    modifies b
    ensures var text := [Char(d)] + if point then [POINT] else [];
      p == p0 + |text| && b[..p] == old(b[..p0]) + text
  {
    p := Put(b, p0, Char(d));
    if point {
      p := Put(b, p, POINT);
    }
  }
}
