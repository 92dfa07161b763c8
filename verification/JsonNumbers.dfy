/** The numbers of the encoder: what fpconv_g_fmt prints fits its room and is a number of the JSON grammar. */
module JsonNumbers {
  import opened Bytes
  import opened Decimals
  import opened GFmt
  import opened Json
  import opened JsonLexer
  import opened JsonParser
  import opened JsonText
  import opened JsonReads
  import opened JsonEncoder
  import opened JsonRoundTrip

  // ---- a printed number is a number of the grammar ----

  lemma {:induction false} RunOf(s: seq<Digit>, t: seq<Byte>)
    requires t == [] || !IsDigit(t[0])
    ensures DigitRun(Chars(s) + t) == |s|
    decreases |s|
  {
    var u := Chars(s) + t;
    if s == [] {
      assert u == t;
    } else {
      RunOf(s[1..], t);
      assert u[1..] == Chars(s[1..]) + t;
    }
  }

  lemma {:induction false} ExponentIsOne(x: int)
    ensures IsExponent(ExponentPart(x)) && ExponentPart(x) != [] && ExponentPart(x)[0] == 'e' as int
  {
    hide Width;
    var t := ExponentPart(x);
    var s := LastDigits(Abs(x), Width(Abs(x)));
    RunOf(s, []);
    assert Chars(s) + [] == Chars(s) == t[2..];
  }

  /** Digits without a leading zero, perhaps a point and digits, and an exponent. */
  lemma {:induction false} FractionNumber(a: seq<Digit>, b: seq<Digit>, e: seq<Byte>)
    requires a != [] && (a[0] == 0 ==> |a| == 1) && b != [] && IsExponent(e) && (e == [] || !IsDigit(e[0]))
    ensures IsNumber(Chars(a) + (['.' as int] + (Chars(b) + e)))
  {
    hide IsExponent;
    var f := ['.' as int] + (Chars(b) + e);
    var t := Chars(a) + f;
    RunOf(a, f);
    RunOf(b, e);
    assert t[|a|..] == f && f[1..] == Chars(b) + e && f[1 + |b|..] == e;
  }

  lemma {:induction false} WholeNumber(a: seq<Digit>, e: seq<Byte>)
    requires a != [] && (a[0] == 0 ==> |a| == 1) && IsExponent(e) && (e == [] || e[0] == 'e' as int)
    ensures IsNumber(Chars(a) + e)
  {
    hide IsExponent;
    var t := Chars(a) + e;
    RunOf(a, e);
    assert t[|a|..] == e;
  }

  lemma {:induction false} LayoutNumber(s: seq<Digit>, decpt: int, precision: nat)
    requires FromDtoa(s, decpt, precision)
    ensures IsNumber(Layout(s, decpt, precision)) && IsDigit(Layout(s, decpt, precision)[0])
  {
    hide IsNumber, ExponentPart;
    var t := Layout(s, decpt, precision);
    if Exponential(decpt, precision) {
      var e := ExponentPart(decpt - 1);
      ExponentIsOne(decpt - 1);
      if |s| == 1 {
        assert t == Chars(s) + e;
        WholeNumber(s, e);
      } else {
        assert t == Chars([s[0]]) + (['.' as int] + (Chars(s[1..]) + e));
        FractionNumber([s[0]], s[1..], e);
      }
    } else if decpt <= 0 {
      assert t == Chars([0]) + (['.' as int] + (Chars(Zeros(-decpt) + s) + []));
      FractionNumber([0], Zeros(-decpt) + s, []);
    } else if |s| <= decpt {
      assert t == Chars(s + Zeros(decpt - |s|)) + [];
      WholeNumber(s + Zeros(decpt - |s|), []);
    } else {
      assert t == Chars(s[..decpt]) + (['.' as int] + (Chars(s[decpt..]) + []));
      FractionNumber(s[..decpt], s[decpt..], []);
    }
  }

  /** The text of a number is a number of the grammar, without a zero byte, and fits the 32 bytes kept for it. */
  lemma {:induction false} TextIsNumber(neg: bool, s: seq<Digit>, decpt: int, precision: nat)
    requires FromDtoa(s, decpt, precision)
    ensures var t := NumberText(neg, s, decpt, precision); IsNumber(t) && NoZero(t) && |t| < 32
  {
    LayoutFits(s, decpt, precision);
    LayoutNumber(s, decpt, precision);
    hide Layout, FromDtoa;
    SignedNumber(neg, Layout(s, decpt, precision));
    NumberNoZero(NumberText(neg, s, decpt, precision));
    hide IsNumber;
  }

  lemma {:induction false} SignedNumber(neg: bool, t: seq<Byte>)
    requires IsNumber(t) && IsDigit(t[0])
    ensures IsNumber(Sign(neg) + t)
  {
    assert Sign(false) + t == t;
    assert (Sign(true) + t)[1..] == t;
  }

  lemma {:induction false} PrintableReadsBack(cfg: Config, literal: seq<Byte>)
    requires Printable(literal) && Scanned(cfg, literal)
    ensures ReadsBack(cfg, literal) && |literal| < NUMBER_ROOM
  {
    var neg, s, decpt, precision :|
      FromDtoa(s, decpt, precision) && literal == NumberText(neg, s, decpt, precision);
    TextIsNumber(neg, s, decpt, precision);
    hide IsNumber, NumberText, FromDtoa, Scanned;
  }

  lemma {:induction false} PrintableNumbers(cfg: Config, v: Json)
    requires Numbers(v, Printable) && Numbers(v, literal => Scanned(cfg, literal))
    ensures Numbers(v, literal => ReadsBack(cfg, literal)) && NumbersShort(v)
    decreases v
  {
    hide Printable, Scanned, ReadsBack;
    match v
    case Number(literal) => PrintableReadsBack(cfg, literal);
    case Array(items) =>
      forall i | 0 <= i < |items|
        ensures Numbers(items[i], literal => ReadsBack(cfg, literal)) && NumbersShort(items[i])
      {
        PrintableNumbers(cfg, items[i]);
      }
    case Object(members) =>
      forall i | 0 <= i < |members|
        ensures Numbers(members[i].value, literal => ReadsBack(cfg, literal)) && NumbersShort(members[i].value)
      {
        PrintableNumbers(cfg, members[i].value);
      }
    case _ =>
  }

  /** Decoding what was encoded gives the value back, for every value whose numbers fpconv_g_fmt printed: all that is
      asked of strtod is that it takes each of them whole where a value may end. */
  lemma {:induction false} PrintedRoundTrip(cfg: Config, v: Json)
    requires ScanStops(cfg) && LuaValue(v) && Depth(v) <= cfg.decodeMaxDepth
    requires Numbers(v, Printable) && Numbers(v, literal => Scanned(cfg, literal))
    ensures NumbersShort(v) && JsonParser.Decode(cfg, Printed(v) + [0]) == Done(v, |Printed(v)|)
  {
    PrintableNumbers(cfg, v);
    RoundTrip(cfg, v);
  }
}
