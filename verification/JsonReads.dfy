/** JSON text is decoded: json_decode finds in a text of the grammar the value the text stands for. */
module JsonReads {
  import opened Bytes
  import opened Unicode
  import opened Json
  import opened JsonLexer
  import opened JsonParser
  import opened JsonText

  // ---- what stands where ----

  lemma {:induction false} StartsSplit(d: seq<Byte>, p: nat, a: seq<Byte>, b: seq<Byte>)
    ensures StartsWith(d, p, a + b) <==> StartsWith(d, p, a) && StartsWith(d, p + |a|, b)
  {
    if p + |a| + |b| <= |d| {
      var whole := d[p..p + |a| + |b|];
      assert d[p..p + |a|] == whole[..|a|];
      assert d[p + |a|..p + |a| + |b|] == whole[|a|..];
      assert (a + b)[..|a|] == a;
      assert (a + b)[|a|..] == b;
      assert whole == whole[..|a|] + whole[|a|..];
    }
  }

  lemma {:induction false} StartsAt(d: seq<Byte>, p: nat, w: seq<Byte>, i: nat)
    requires StartsWith(d, p, w) && i < |w|
    ensures p + i < |d| && d[p + i] == w[i]
  {
    assert d[p..p + |w|][i] == d[p + i];
  }

  lemma {:induction false} Regroup(a: seq<Byte>, b: seq<Byte>, c: seq<Byte>)
    ensures a + b + c == a + (b + c)
  {
  }

  /** Four pieces, one behind the other. */
  lemma {:induction false} Pieces(d: seq<Byte>, p: nat, a: seq<Byte>, b: seq<Byte>, c: seq<Byte>, e: seq<Byte>)
    ensures StartsWith(d, p, a + b + c + e) <==>
      && StartsWith(d, p, a) && StartsWith(d, p + |a|, b) && StartsWith(d, p + |a| + |b|, c)
      && StartsWith(d, p + |a| + |b| + |c|, e)
  {
    hide StartsWith;
    StartsSplit(d, p, a + b + c, e);
    StartsSplit(d, p, a + b, c);
    StartsSplit(d, p, a, b);
  }

  // ---- white space ----

  lemma {:induction false} BlankSkipped(cfg: Config, d: Text, p: nat)
    requires ScanStops(cfg) && p + 1 < |d| && Blank(d[p])
    ensures NextToken(cfg, d, p) == NextToken(cfg, d, p + 1)
  {
    assert SkipWhitespace(d, p) == SkipWhitespace(d, p + 1);
    hide SkipWhitespace, StringFrom, NumberFrom, WordFrom;
  }

  /** White space before a token does not matter. */
  lemma {:induction false} BlanksSkipped(cfg: Config, d: Text, p: nat, blanks: seq<Byte>)
    requires ScanStops(cfg) && Blanks(blanks) && StartsWith(d, p, blanks) && p + |blanks| < |d|
    ensures NextToken(cfg, d, p) == NextToken(cfg, d, p + |blanks|)
    decreases |blanks|
  {
    hide StartsWith, NextToken;
    if blanks != [] {
      StartsAt(d, p, blanks, 0);
      assert blanks == [blanks[0]] + blanks[1..];
      StartsSplit(d, p, [blanks[0]], blanks[1..]);
      BlankSkipped(cfg, d, p);
      BlanksSkipped(cfg, d, p + 1, blanks[1..]);
    }
  }

  // ---- tokens of one character ----

  lemma {:induction false} SingleReads(cfg: Config, d: Text, p: nat, ch: Byte, t: Token)
    requires ScanStops(cfg) && p < |d| && d[p] == ch
    requires
      || (ch == '{' as int && t == ObjBegin) || (ch == '}' as int && t == ObjEnd)
      || (ch == '[' as int && t == ArrBegin) || (ch == ']' as int && t == ArrEnd)
      || (ch == ',' as int && t == CommaToken) || (ch == ':' as int && t == ColonToken)
    ensures NextToken(cfg, d, p) == Lexed(t, p, p + 1)
  {
  }

  /** White space and then such a character. */
  lemma {:induction false} BlanksThen(cfg: Config, d: Text, p: nat, blanks: seq<Byte>, ch: Byte, t: Token)
    requires ScanStops(cfg) && Blanks(blanks) && StartsWith(d, p, blanks) && StartsWith(d, p + |blanks|, [ch])
    requires p + |blanks| < |d|
    requires
      || (ch == '{' as int && t == ObjBegin) || (ch == '}' as int && t == ObjEnd)
      || (ch == '[' as int && t == ArrBegin) || (ch == ']' as int && t == ArrEnd)
      || (ch == ',' as int && t == CommaToken) || (ch == ':' as int && t == ColonToken)
    ensures NextToken(cfg, d, p) == Lexed(t, p + |blanks|, p + |blanks| + 1)
  {
    hide NextToken;
    BlanksSkipped(cfg, d, p, blanks);
    StartsAt(d, p + |blanks|, [ch], 0);
    SingleReads(cfg, d, p + |blanks|, ch, t);
  }

  // ---- strings ----

  lemma {:induction false} HexStands(d: Text, p: nat, h: seq<Hex>)
    requires ValidHex(h) && StartsWith(d, p, UnitText(h)) && p + 6 < |d|
    ensures UnitAt(d, p, UnitValue(h))
  {
    var w := UnitText(h);
    StartsAt(d, p, w, 0);
    StartsAt(d, p, w, 1);
    StartsAt(d, p, w, 2);
    StartsAt(d, p, w, 3);
    StartsAt(d, p, w, 4);
    StartsAt(d, p, w, 5);
    hide StartsWith;
    assert UnitDigits(d, p, UnitValue(h), h[0].value, h[1].value, h[2].value, h[3].value);
  }

  lemma {:induction false} EscapeTaken(d: Text, p: nat, acc: seq<Byte>)
    requires p + 2 < |d| && d[p] == '\\' as int && d[p + 1] == 'u' as int && UnicodeEscape(d, p).Some?
    ensures var r := UnicodeEscape(d, p).value; StringFrom(d, p, acc) == StringFrom(d, p + r.1, acc + r.0)
  {
    hide UnicodeEscape;
  }

  lemma {:induction false} PairValue(u: nat, low: nat)
    requires 0xD800 <= u <= 0xDBFF && 0xDC00 <= low <= 0xDFFF
    ensures var cp := 0x10000 + (u - 0xD800) * 0x400 + (low - 0xDC00);
      0x10000 <= cp <= 0x10FFFF && u == 0xD800 + (cp - 0x10000) / 0x400 && low == 0xDC00 + (cp - 0x10000) % 0x400
  {
  }

  lemma {:induction false} HexReads(d: Text, p: nat, c: Chr, acc: seq<Byte>)
    requires ValidChr(c) && (c.Unit? || c.Surrogates?) && StartsWith(d, p, ChrText(c)) && p + |ChrText(c)| < |d|
    ensures StringFrom(d, p, acc) == StringFrom(d, p + |ChrText(c)|, acc + ChrBytes(c))
  {
    hide StringFrom, Hex4, UnitAt, Utf8, UnitText, UnicodeEscape;
    var cp: nat;
    if c.Unit? {
      cp := UnitValue(c.hex);
      HexStands(d, p, c.hex);
    } else {
      cp := 0x10000 + (UnitValue(c.high) - 0xD800) * 0x400 + (UnitValue(c.low) - 0xDC00);
      StartsSplit(d, p, UnitText(c.high), UnitText(c.low));
      hide StartsWith;
      HexStands(d, p, c.high);
      HexStands(d, p + 6, c.low);
      PairValue(UnitValue(c.high), UnitValue(c.low));
    }
    UnitRead(d, p, if c.Unit? then cp else UnitValue(c.high));
    EscapeAccepts(d, p, cp, |ChrText(c)|);
    EscapeTaken(d, p, acc);
  }

  /** A character of a string, however it is written, is read as the bytes it stands for. */
  lemma {:induction false} ChrReads(d: Text, p: nat, c: Chr, acc: seq<Byte>)
    requires ValidChr(c) && StartsWith(d, p, ChrText(c)) && p + |ChrText(c)| < |d|
    ensures StringFrom(d, p, acc) == StringFrom(d, p + |ChrText(c)|, acc + ChrBytes(c))
  {
    hide UnicodeEscape, Utf8, UnitText;
    match c
    case Raw(b) => StartsAt(d, p, [b], 0);
    case Short(l) =>
      StartsAt(d, p, ChrText(c), 0);
      StartsAt(d, p, ChrText(c), 1);
    case _ =>
      hide *;
      HexReads(d, p, c, acc);
  }

  lemma {:induction false} CharsRead(d: Text, p: nat, s: seq<Chr>, acc: seq<Byte>)
    requires ValidChars(s) && StartsWith(d, p, CharsText(s)) && p + |CharsText(s)| < |d|
    ensures StringFrom(d, p, acc) == StringFrom(d, p + |CharsText(s)|, acc + CharsBytes(s))
  {
    hide StringFrom, ChrText, ChrBytes, StartsWith, ValidChr;
    if s == [] {
      assert acc + CharsBytes(s) == acc;
    } else {
      var front, c := s[..|s| - 1], s[|s| - 1];
      StartsSplit(d, p, CharsText(front), ChrText(c));
      CharsRead(d, p, front, acc);
      ChrReads(d, p + |CharsText(front)|, c, acc + CharsBytes(front));
      Regroup(acc, CharsBytes(front), ChrBytes(c));
    }
  }

  lemma {:induction false} StringEnds(d: Text, p: nat, acc: seq<Byte>)
    requires p < |d| && d[p] == '"' as int
    ensures StringFrom(d, p, acc) == Lexed(StringToken(acc), p, p + 1)
  {
  }

  lemma {:induction false} StringToken0(cfg: Config, d: Text, p: nat)
    requires ScanStops(cfg) && p + 1 < |d| && d[p] == '"' as int && StringFrom(d, p + 1, []).token.StringToken?
    ensures NextToken(cfg, d, p) == StringFrom(d, p + 1, []).(index := p)
  {
    hide StringFrom;
  }

  /** A string, however its characters are written, is one token: the bytes they stand for. */
  lemma {:induction false} StringTextReads(cfg: Config, d: Text, p: nat, s: seq<Chr>)
    requires ScanStops(cfg) && ValidChars(s) && StartsWith(d, p, StringText(s)) && p + |StringText(s)| < |d|
    ensures NextToken(cfg, d, p) == Lexed(StringToken(CharsBytes(s)), p, p + |StringText(s)|)
  {
    hide StringFrom, CharsText, CharsBytes, StartsWith, ValidChars, NextToken;
    var q := p + 1 + |CharsText(s)|;
    StartsSplit(d, p, ['"' as int] + CharsText(s), ['"' as int]);
    StartsSplit(d, p, ['"' as int], CharsText(s));
    StartsAt(d, p, ['"' as int], 0);
    StartsAt(d, q, ['"' as int], 0);
    CharsRead(d, p + 1, s, []);
    assert [] + CharsBytes(s) == CharsBytes(s);
    StringEnds(d, q, CharsBytes(s));
    StringToken0(cfg, d, p);
  }

  // ---- numbers and words ----

  /** Where a number may end: at the end of the text or before white space, a comma or a closing bracket or brace. */
  predicate Ends(rest: seq<Byte>)
  {
    rest == [] || Blank(rest[0]) || rest[0] == ',' as int || rest[0] == ']' as int || rest[0] == '}' as int
  }

  predicate Delimited(d: Text, p: nat)
  {
    p < |d| && Ends(d[p..|d| - 1])
  }

  /** strtod takes the whole literal where a value may end. */
  ghost predicate Scanned(cfg: Config, literal: seq<Byte>)
  {
    forall rest | Ends(rest) :: cfg.scan(literal + rest) == |literal|
  }

  predicate Either(b: Byte, small: Byte)
  {
    b as int == small || b as int + 32 == small
  }

  /** The text begins with these three letters, each in either case. */
  predicate NoCase(u: seq<Byte>, a: Byte, b: Byte, c: Byte)
  {
    |u| >= 3 && Either(u[0], a) && Either(u[1], b) && Either(u[2], c)
  }

  /** It begins as the numbers do that strtod takes and JSON does not have. */
  predicate Invalid(literal: seq<Byte>)
  {
    && literal != []
    && (literal[0] == '+' as int || NoCase(literal, 'i' as int, 'n' as int, 'f' as int)
        || NoCase(literal, 'n' as int, 'a' as int, 'n' as int))
  }

  /** A number of the grammar, or whatever else is let through by the settings. */
  predicate NumberLike(cfg: Config, literal: seq<Byte>)
  {
    || IsNumber(literal)
    || (cfg.decodeInvalidNumbers && (forall b | b in literal :: b != 0) && literal != []
        && (literal[0] == '-' as int || IsDigit(literal[0]) || Invalid(literal)))
  }

  ghost predicate ReadsBack(cfg: Config, literal: seq<Byte>)
  {
    NumberLike(cfg, literal) && Scanned(cfg, literal)
  }

  /** After a leading zero comes the point, the exponent or the end. */
  lemma {:induction false} AfterZero(t: seq<Byte>)
    requires IsNumber(t)
    ensures var p := if t[0] == '-' as int then 1 else 0;
      && p < |t| && IsDigit(t[p])
      && (t[p] == '0' as int && p + 1 < |t| ==>
          t[p + 1] == '.' as int || t[p + 1] == 'e' as int || t[p + 1] == 'E' as int)
  {
    var u := if t[0] == '-' as int then t[1..] else t;
    assert u == t[if t[0] == '-' as int then 1 else 0..];
    if u[0] == '0' as int && |u| > 1 {
      assert u[1..][0] == u[1];
    }
  }

  lemma {:induction false} NumberStays(d: Text, p: nat, literal: seq<Byte>)
    requires IsNumber(literal) && StartsWith(d, p, literal) && Delimited(d, p + |literal|)
    ensures p < |d| && !IsInvalidNumber(d, p) && (d[p] == '-' as int || IsDigit(d[p]))
  {
    AfterZero(literal);
    hide IsNumber;
    StartsAt(d, p, literal, 0);
    if |literal| > 1 {
      StartsAt(d, p, literal, 1);
    }
    if |literal| > 2 {
      StartsAt(d, p, literal, 2);
    }
    hide StartsWith;
    var rest := d[p + |literal|..|d| - 1];
    if rest != [] {
      assert rest[0] == d[p + |literal|];
    }
  }

  lemma {:induction false} NumberToken0(cfg: Config, d: Text, p: nat)
    requires ScanStops(cfg) && p < |d| && (d[p] == '-' as int || IsDigit(d[p]))
    requires cfg.decodeInvalidNumbers || !IsInvalidNumber(d, p)
    ensures NextToken(cfg, d, p) == NumberFrom(cfg, d, p)
  {
    hide IsInvalidNumber, NumberFrom, WordFrom, StringFrom;
  }

  lemma {:induction false} InvalidStands(d: Text, p: nat, literal: seq<Byte>)
    requires Invalid(literal) && StartsWith(d, p, literal) && p < |d|
    ensures IsInvalidNumber(d, p) && NeedsMore(d[p]) && SingleToken(d[p]).None? && !Whitespace(d[p])
    ensures d[p] != '-' as int && !JsonLexer.Digit(d[p]) && d[p] != QUOTE && d[p] != 0
  {
    StartsAt(d, p, literal, 0);
    if |literal| >= 3 {
      StartsAt(d, p, literal, 1);
      StartsAt(d, p, literal, 2);
    }
    hide StartsWith;
  }

  /** What JSON does not have is looked for behind the words. */
  lemma {:induction false} InvalidToken0(cfg: Config, d: Text, p: nat, literal: seq<Byte>)
    requires ScanStops(cfg) && Invalid(literal) && StartsWith(d, p, literal) && cfg.decodeInvalidNumbers && p < |d|
    ensures NextToken(cfg, d, p) == NumberFrom(cfg, d, p)
  {
    InvalidStands(d, p, literal);
    NotAWord(d, p, literal);
    hide StartsWith, NumberFrom, StringFrom, Invalid, IsInvalidNumber, NeedsMore, SingleToken, Whitespace;
  }

  lemma {:induction false} NotAWord(d: Text, p: nat, literal: seq<Byte>)
    requires Invalid(literal) && StartsWith(d, p, literal)
    ensures !StartsWith(d, p, TRUE_TEXT) && !StartsWith(d, p, FALSE_TEXT) && !StartsWith(d, p, NULL_TEXT)
  {
    hide StartsWith;
    StartsAt(d, p, literal, 0);
    if |literal| > 1 {
      StartsAt(d, p, literal, 1);
    }
    if StartsWith(d, p, TRUE_TEXT) {
      StartsAt(d, p, TRUE_TEXT, 0);
    } else if StartsWith(d, p, FALSE_TEXT) {
      StartsAt(d, p, FALSE_TEXT, 0);
    } else if StartsWith(d, p, NULL_TEXT) {
      StartsAt(d, p, NULL_TEXT, 0);
      StartsAt(d, p, NULL_TEXT, 1);
    }
  }

  lemma {:induction false} NumberReads(cfg: Config, d: Text, p: nat, literal: seq<Byte>)
    requires ScanStops(cfg) && ReadsBack(cfg, literal) && StartsWith(d, p, literal) && Delimited(d, p + |literal|)
    ensures NextToken(cfg, d, p) == Lexed(NumberToken(literal), p, p + |literal|)
  {
    hide NextToken, IsNumber, IsInvalidNumber, Invalid;
    if IsNumber(literal) {
      NumberStays(d, p, literal);
      AfterZero(literal);
      NumberToken0(cfg, d, p);
    } else {
      StartsAt(d, p, literal, 0);
      if Invalid(literal) {
        InvalidToken0(cfg, d, p, literal);
      } else {
        NumberToken0(cfg, d, p);
      }
    }
    NumberHere(cfg, d, p, literal);
  }

  lemma {:induction false} NumberHere(cfg: Config, d: Text, p: nat, literal: seq<Byte>)
    requires ScanStops(cfg) && Scanned(cfg, literal) && literal != []
    requires StartsWith(d, p, literal) && Delimited(d, p + |literal|)
    ensures NumberFrom(cfg, d, p) == Lexed(NumberToken(literal), p, p + |literal|)
  {
    var q := p + |literal|;
    var rest := d[q..|d| - 1];
    assert d[p..|d| - 1] == literal + rest;
    assert cfg.scan(literal + rest) == |literal|;
  }

  lemma {:induction false} WordReads(cfg: Config, d: Text, p: nat, w: Tree, t: Token)
    requires w.NullWord? || w.TrueWord? || w.FalseWord?
    requires ScanStops(cfg) && StartsWith(d, p, TreeText(w)) && p + |TreeText(w)| < |d|
    requires t == match w case NullWord => NullToken case TrueWord => BooleanToken(true) case _ => BooleanToken(false)
    ensures NextToken(cfg, d, p) == Lexed(t, p, p + |TreeText(w)|)
  {
    StartsAt(d, p, TreeText(w), 0);
    if StartsWith(d, p, TRUE_TEXT) {
      StartsAt(d, p, TRUE_TEXT, 0);
    }
    if StartsWith(d, p, FALSE_TEXT) {
      StartsAt(d, p, FALSE_TEXT, 0);
    }
    hide StringFrom, NumberFrom, IsInvalidNumber, StartsWith;
  }

  // ---- values ----

  /** Nested within the limit, and with numbers the decoder takes. */
  ghost predicate Readable(cfg: Config, t: Tree, depth: nat)
  {
    Valid(t) && depth + Levels(t) <= cfg.decodeMaxDepth && Numerals(t, literal => ReadsBack(cfg, literal))
  }

  ghost predicate ItemsReadable(cfg: Config, i: Items, depth: nat)
  {
    && ValidItems(i) && depth + ItemsLevels(i) <= cfg.decodeMaxDepth
    && ItemsNumerals(i, literal => ReadsBack(cfg, literal))
  }

  ghost predicate PairsReadable(cfg: Config, p: Pairs, depth: nat)
  {
    && ValidPairs(p) && depth + PairsLevels(p) <= cfg.decodeMaxDepth
    && PairsNumerals(p, literal => ReadsBack(cfg, literal))
  }

  lemma {:induction false} ReadableValid(cfg: Config, t: Tree, depth: nat)
    requires Readable(cfg, t, depth)
    ensures Valid(t)
  {
  }

  /** Behind a value and white space comes a character that ends it. */
  lemma {:induction false} BlanksDelimit(d: Text, p: nat, blanks: seq<Byte>)
    requires StartsWith(d, p, blanks) && Blanks(blanks) && p + |blanks| < |d|
    requires Delimited(d, p + |blanks|)
    ensures Delimited(d, p)
  {
    if blanks != [] {
      StartsAt(d, p, blanks, 0);
      assert d[p..|d| - 1] != [] ==> d[p..|d| - 1][0] == d[p];
    } else {
      assert p + |blanks| == p;
    }
  }

  lemma {:induction false} ByteDelimits(d: Text, p: nat, b: Byte)
    requires StartsWith(d, p, [b]) && (b == ',' as int || b == ']' as int || b == '}' as int)
    ensures Delimited(d, p)
  {
    StartsAt(d, p, [b], 0);
    assert d[p..|d| - 1][0] == d[p];
  }

  /** The text of a value, where a value may end, is read as the value it stands for and to its last byte. */
  lemma {:induction false} TreeReads(cfg: Config, d: Text, p: nat, t: Tree, depth: nat)
    requires ScanStops(cfg) && Readable(cfg, t, depth)
    requires StartsWith(d, p, TreeText(t)) && Delimited(d, p + |TreeText(t)|)
    ensures p < |d| && ParseValue(cfg, d, NextToken(cfg, d, p), depth) == Done(TreeValue(t), p + |TreeText(t)|)
    decreases t, 1
  {
    hide NextToken, StartsWith, ReadsBack, StringText, ParseValue, ArrayText, ObjectText, CharsBytes, IsNumber;
    hide PairsValue;
    match t
    case NullWord => LeafReads(cfg, d, p, t, depth);
    case TrueWord => LeafReads(cfg, d, p, t, depth);
    case FalseWord => LeafReads(cfg, d, p, t, depth);
    case Numeral(_) => LeafReads(cfg, d, p, t, depth);
    case Quotation(_) => LeafReads(cfg, d, p, t, depth);
    case EmptyBrackets(blank) => EmptyReads(cfg, d, p, '[' as int, blank, depth);
    case EmptyBraces(blank) => EmptyReads(cfg, d, p, '{' as int, blank, depth);
    case Brackets(items) => ArrayReads(cfg, d, p, items, depth);
    case Braces(pairs) => ObjectReads(cfg, d, p, pairs, depth);
  }

  lemma {:induction false} LeafReads(cfg: Config, d: Text, p: nat, t: Tree, depth: nat)
    requires ScanStops(cfg) && Readable(cfg, t, depth)
    requires t.NullWord? || t.TrueWord? || t.FalseWord? || t.Numeral? || t.Quotation?
    requires StartsWith(d, p, TreeText(t)) && Delimited(d, p + |TreeText(t)|)
    ensures p < |d| && ParseValue(cfg, d, NextToken(cfg, d, p), depth) == Done(TreeValue(t), p + |TreeText(t)|)
  {
    hide NextToken, StartsWith, ReadsBack, StringText, CharsBytes;
    match t
    case Numeral(literal) => NumberReads(cfg, d, p, literal);
    case Quotation(chars) => StringTextReads(cfg, d, p, chars);
    case _ =>
      WordReads(cfg, d, p, t,
        match t case NullWord => NullToken case TrueWord => BooleanToken(true) case _ => BooleanToken(false));
  }

  lemma {:induction false} EmptyReads(cfg: Config, d: Text, p: nat, open: Byte, blank: seq<Byte>, depth: nat)
    requires ScanStops(cfg) && depth < cfg.decodeMaxDepth && Blanks(blank)
    requires open == '[' as int || open == '{' as int
    requires StartsWith(d, p, [open] + blank + [if open == '[' as int then ']' as int else '}' as int])
    requires p + |blank| + 2 < |d|
    ensures ParseValue(cfg, d, NextToken(cfg, d, p), depth) == Done(Object([]), p + |blank| + 2)
  {
    hide NextToken, StartsWith;
    var close: Byte := if open == '[' as int then ']' as int else '}' as int;
    StartsSplit(d, p, [open] + blank, [close]);
    StartsSplit(d, p, [open], blank);
    StartsAt(d, p, [open], 0);
    if open == '[' as int {
      SingleReads(cfg, d, p, open, ArrBegin);
      BlanksThen(cfg, d, p + 1, blank, close, ArrEnd);
    } else {
      SingleReads(cfg, d, p, open, ObjBegin);
      BlanksThen(cfg, d, p + 1, blank, close, ObjEnd);
    }
  }

  lemma {:induction false} ArrayTurn(cfg: Config, d: Text, t: Lexed, depth: nat)
    requires ScanStops(cfg) && t.next < |d| && depth < cfg.decodeMaxDepth && t.token == ArrBegin
    requires ParseItems(cfg, d, NextToken(cfg, d, t.next), depth + 1, []).Done?
    ensures ParseValue(cfg, d, t, depth) == ParseItems(cfg, d, NextToken(cfg, d, t.next), depth + 1, [])
  {
    hide NextToken;
  }

  lemma {:induction false} ObjectTurn(cfg: Config, d: Text, t: Lexed, depth: nat)
    requires ScanStops(cfg) && t.next < |d| && depth < cfg.decodeMaxDepth && t.token == ObjBegin
    requires ParseMembers(cfg, d, NextToken(cfg, d, t.next), depth + 1, []).Done?
    ensures ParseValue(cfg, d, t, depth) == ParseMembers(cfg, d, NextToken(cfg, d, t.next), depth + 1, [])
  {
    hide NextToken;
  }

  lemma {:induction false} BracketsReadable(cfg: Config, i: Items, depth: nat)
    requires Readable(cfg, Brackets(i), depth)
    ensures ValidItems(i) && depth < cfg.decodeMaxDepth && ItemsReadable(cfg, i, depth + 1)
    ensures TreeText(Brackets(i)) == ['[' as int] + ArrayText(i) && TreeValue(Brackets(i)) == Array([] + ItemsValue(i))
  {
    hide ReadsBack;
    assert [] + ItemsValue(i) == ItemsValue(i);
  }

  lemma {:induction false} BracesReadable(cfg: Config, m: Pairs, depth: nat)
    requires Readable(cfg, Braces(m), depth)
    ensures ValidPairs(m) && depth < cfg.decodeMaxDepth && PairsReadable(cfg, m, depth + 1)
    ensures TreeText(Braces(m)) == ['{' as int] + ObjectText(m) && TreeValue(Braces(m)) == Object(PairsValue(m, []))
  {
    hide ReadsBack;
  }

  lemma {:induction false} ArrayReads(cfg: Config, d: Text, p: nat, i: Items, depth: nat)
    requires ScanStops(cfg) && Readable(cfg, Brackets(i), depth) && Valid(Brackets(i))
    requires StartsWith(d, p, TreeText(Brackets(i))) && p + |TreeText(Brackets(i))| < |d|
    ensures ParseValue(cfg, d, NextToken(cfg, d, p), depth) == Done(TreeValue(Brackets(i)), p + |TreeText(Brackets(i))|)
    decreases i, 1
  {
    hide *;
    BracketsReadable(cfg, i, depth);
    StartsSplit(d, p, ['[' as int], ArrayText(i));
    StartsAt(d, p, ['[' as int], 0);
    SingleReads(cfg, d, p, '[' as int, ArrBegin);
    ItemsRead(cfg, d, p + 1, i, depth + 1, []);
    ArrayTurn(cfg, d, NextToken(cfg, d, p), depth);
  }

  lemma {:induction false} ObjectReads(cfg: Config, d: Text, p: nat, m: Pairs, depth: nat)
    requires ScanStops(cfg) && Readable(cfg, Braces(m), depth) && Valid(Braces(m))
    requires StartsWith(d, p, TreeText(Braces(m))) && p + |TreeText(Braces(m))| < |d|
    ensures ParseValue(cfg, d, NextToken(cfg, d, p), depth) == Done(TreeValue(Braces(m)), p + |TreeText(Braces(m))|)
    decreases m, 1
  {
    hide *;
    BracesReadable(cfg, m, depth);
    StartsSplit(d, p, ['{' as int], ObjectText(m));
    StartsAt(d, p, ['{' as int], 0);
    SingleReads(cfg, d, p, '{' as int, ObjBegin);
    PairsRead(cfg, d, p + 1, m, depth + 1, []);
    ObjectTurn(cfg, d, NextToken(cfg, d, p), depth);
  }

  /** A value with white space around it, and the character c behind. */
  lemma {:induction false} PaddedReads(
    cfg: Config, d: Text, p: nat, before: seq<Byte>, t: Tree, after: seq<Byte>, c: Byte, token: Token, depth: nat)
    requires ScanStops(cfg) && Blanks(before) && Readable(cfg, t, depth) && Blanks(after)
    requires StartsWith(d, p, before) && StartsWith(d, p + |before|, TreeText(t))
    requires StartsWith(d, p + |before| + |TreeText(t)|, after)
    requires StartsWith(d, p + |before| + |TreeText(t)| + |after|, [c])
    requires
      || (c == ',' as int && token == CommaToken) || (c == ']' as int && token == ArrEnd)
      || (c == '}' as int && token == ObjEnd)
    ensures
      && var q := p + |before| + |TreeText(t)|;
      && p < |d| && q + |after| < |d|
      && ParseValue(cfg, d, NextToken(cfg, d, p), depth) == Done(TreeValue(t), q)
      && NextToken(cfg, d, q) == Lexed(token, q + |after|, q + |after| + 1)
    decreases t, 2
  {
    hide *;
    ReadableValid(cfg, t, depth);
    var q := p + |before| + |TreeText(t)|;
    ByteDelimits(d, q + |after|, c);
    BlanksDelimit(d, q, after);
    BlanksSkipped(cfg, d, p, before);
    TreeReads(cfg, d, p + |before|, t, depth);
    BlanksThen(cfg, d, q, after, c, token);
  }

  /** One turn of the loop over the items. */
  lemma {:induction false} ItemTurn(
    cfg: Config, d: Text, p: nat, v: Json, q: nat, t: Lexed, depth: nat, items: seq<Json>)
    requires ScanStops(cfg) && p < |d| && q < |d| && NextToken(cfg, d, q) == t
    requires ParseValue(cfg, d, NextToken(cfg, d, p), depth) == Done(v, q)
    ensures t.next < |d|
    ensures t.token.ArrEnd? ==>
      ParseItems(cfg, d, NextToken(cfg, d, p), depth, items) == Done(Array(items + [v]), t.next)
    ensures t.token.CommaToken? ==>
      ParseItems(cfg, d, NextToken(cfg, d, p), depth, items)
      == ParseItems(cfg, d, NextToken(cfg, d, t.next), depth, items + [v])
  {
    hide NextToken, ParseValue;
  }

  lemma {:induction false} ItemsReadableParts(cfg: Config, i: Items, depth: nat)
    requires ItemsReadable(cfg, i, depth)
    ensures ValidItems(i) && Blanks(i.before) && Valid(i.tree) && Readable(cfg, i.tree, depth) && Blanks(i.after)
    ensures i.MoreItems? ==> ValidItems(i.rest) && ItemsReadable(cfg, i.rest, depth)
  {
    hide ReadsBack, Valid, Levels, Numerals, Blanks;
  }

  /** The text of items, and their values, from the first one on. */
  lemma {:induction false} FirstItem(i: Items, items: seq<Json>)
    requires ValidItems(i)
    ensures
      && var text := i.before + TreeText(i.tree) + i.after;
      && var more := items + [TreeValue(i.tree)];
      && if i.LastItem? then
           && ArrayText(i) == text + [']' as int] && items + ItemsValue(i) == more
           && |ArrayText(i)| == |i.before| + |TreeText(i.tree)| + |i.after| + 1
         else
           && ArrayText(i) == text + ([',' as int] + ArrayText(i.rest))
           && items + ItemsValue(i) == more + ItemsValue(i.rest)
           && |ArrayText(i)| == |i.before| + |TreeText(i.tree)| + |i.after| + 1 + |ArrayText(i.rest)|
  {
    hide TreeText, TreeValue, Blanks, Valid;
    var text, v := i.before + TreeText(i.tree) + i.after, [TreeValue(i.tree)];
    if i.MoreItems? {
      assert ItemsValue(i) == v + ItemsValue(i.rest);
      assert items + (v + ItemsValue(i.rest)) == items + v + ItemsValue(i.rest);
    } else {
      assert ItemsValue(i) == v;
    }
    assert |text| == |i.before| + |TreeText(i.tree)| + |i.after|;
    hide ItemsValue;
  }

  lemma {:induction false} ItemsRead(cfg: Config, d: Text, p: nat, i: Items, depth: nat, items: seq<Json>)
    requires ScanStops(cfg) && ItemsReadable(cfg, i, depth)
    requires StartsWith(d, p, ArrayText(i)) && p + |ArrayText(i)| < |d|
    ensures ParseItems(cfg, d, NextToken(cfg, d, p), depth, items)
      == Done(Array(items + ItemsValue(i)), p + |ArrayText(i)|)
    decreases i, 0
  {
    hide *;
    ItemsReadableParts(cfg, i, depth);
    FirstItem(i, items);
    var text, v := TreeText(i.tree), TreeValue(i.tree);
    var q := p + |i.before| + |text|;
    if i.LastItem? {
      Pieces(d, p, i.before, text, i.after, [']' as int]);
      PaddedReads(cfg, d, p, i.before, i.tree, i.after, ']' as int, ArrEnd, depth);
      ItemTurn(cfg, d, p, v, q, Lexed(ArrEnd, q + |i.after|, q + |i.after| + 1), depth, items);
    } else {
      var rest := ArrayText(i.rest);
      Pieces(d, p, i.before, text, i.after, [',' as int] + rest);
      StartsSplit(d, q + |i.after|, [',' as int], rest);
      PaddedReads(cfg, d, p, i.before, i.tree, i.after, ',' as int, CommaToken, depth);
      ItemTurn(cfg, d, p, v, q, Lexed(CommaToken, q + |i.after|, q + |i.after| + 1), depth, items);
      ItemsRead(cfg, d, q + |i.after| + 1, i.rest, depth, items + [v]);
    }
  }

  /** A name and the colon behind it. */
  lemma {:induction false} NameReads(cfg: Config, d: Text, p: nat, n: Name)
    requires ScanStops(cfg) && ValidName(n) && StartsWith(d, p, NameText(n)) && p + |NameText(n)| < |d|
    ensures
      && var t := NextToken(cfg, d, p);
      && t.token == StringToken(CharsBytes(n.chars)) && NextToken(cfg, d, t.next).token == ColonToken
      && NextToken(cfg, d, t.next).next == p + |NameText(n)|
  {
    hide NextToken, StringText, CharsBytes, ValidChars;
    var s := StringText(n.chars);
    Pieces(d, p, n.before, s, n.after, [':' as int]);
    hide StartsWith;
    BlanksSkipped(cfg, d, p, n.before);
    StringTextReads(cfg, d, p + |n.before|, n.chars);
    BlanksThen(cfg, d, p + |n.before| + |s|, n.after, ':' as int, ColonToken);
  }

  /** One turn of the loop over the members, from a name whose colon ends at p. */
  lemma {:induction false} MemberTurn(
    cfg: Config, d: Text, t: Lexed, p: nat, v: Json, q: nat, t2: Lexed, depth: nat, members: seq<Member>)
    requires ScanStops(cfg) && t.next < |d| && p < |d| && q < |d| && NextToken(cfg, d, q) == t2
    requires t.token.StringToken?
    requires NextToken(cfg, d, t.next).token.ColonToken? && NextToken(cfg, d, t.next).next == p
    requires ParseValue(cfg, d, NextToken(cfg, d, p), depth) == Done(v, q)
    ensures t2.next < |d|
    ensures t2.token.ObjEnd? ==>
      ParseMembers(cfg, d, t, depth, members) == Done(Object(WithKey(members, t.token.bytes, v)), t2.next)
    ensures t2.token.CommaToken? ==>
      ParseMembers(cfg, d, t, depth, members)
      == ParseMembers(cfg, d, NextToken(cfg, d, t2.next), depth, WithKey(members, t.token.bytes, v))
  {
    hide NextToken, ParseValue, WithKey;
  }

  lemma {:induction false} PairsReadableParts(cfg: Config, m: Pairs, depth: nat)
    requires PairsReadable(cfg, m, depth)
    ensures ValidPairs(m) && ValidName(m.name) && ValidChars(m.name.chars)
    ensures Blanks(m.before) && Valid(m.tree) && Readable(cfg, m.tree, depth) && Blanks(m.after)
    ensures m.MorePairs? ==> ValidPairs(m.rest) && PairsReadable(cfg, m.rest, depth)
  {
    hide ReadsBack, Valid, Levels, Numerals, Blanks, ValidChars;
  }

  /** The text of members, and its value, from the first one on. */
  lemma {:induction false} FirstPair(m: Pairs, members: seq<Member>)
    requires ValidPairs(m)
    ensures
      && var text := m.before + TreeText(m.tree) + m.after;
      && var stored := WithKey(members, CharsBytes(m.name.chars), TreeValue(m.tree));
      && if m.LastPair? then
           && ObjectText(m) == NameText(m.name) + (text + ['}' as int]) && PairsValue(m, members) == stored
           && |ObjectText(m)| == |NameText(m.name)| + |m.before| + |TreeText(m.tree)| + |m.after| + 1
         else
           && ObjectText(m) == NameText(m.name) + (text + ([',' as int] + ObjectText(m.rest)))
           && PairsValue(m, members) == PairsValue(m.rest, stored)
           && |ObjectText(m)|
              == |NameText(m.name)| + |m.before| + |TreeText(m.tree)| + |m.after| + 1 + |ObjectText(m.rest)|
  {
    hide TreeText, TreeValue, WithKey, NameText, Blanks, CharsBytes, ValidName;
  }

  lemma {:induction false} PairsRead(cfg: Config, d: Text, p: nat, m: Pairs, depth: nat, members: seq<Member>)
    requires ScanStops(cfg) && PairsReadable(cfg, m, depth)
    requires StartsWith(d, p, ObjectText(m)) && p + |ObjectText(m)| < |d|
    ensures ParseMembers(cfg, d, NextToken(cfg, d, p), depth, members)
      == Done(Object(PairsValue(m, members)), p + |ObjectText(m)|)
    decreases m, 0
  {
    hide *;
    PairsReadableParts(cfg, m, depth);
    FirstPair(m, members);
    var text, v := TreeText(m.tree), TreeValue(m.tree);
    var t, p1 := NextToken(cfg, d, p), p + |NameText(m.name)|;
    var q := p1 + |m.before| + |text|;
    var end := q + |m.after|;
    if m.LastPair? {
      StartsSplit(d, p, NameText(m.name), m.before + text + m.after + ['}' as int]);
      Pieces(d, p1, m.before, text, m.after, ['}' as int]);
      NameReads(cfg, d, p, m.name);
      PaddedReads(cfg, d, p1, m.before, m.tree, m.after, '}' as int, ObjEnd, depth);
      MemberTurn(cfg, d, t, p1, v, q, Lexed(ObjEnd, end, end + 1), depth, members);
    } else {
      var rest := ObjectText(m.rest);
      StartsSplit(d, p, NameText(m.name), m.before + text + m.after + ([',' as int] + rest));
      Pieces(d, p1, m.before, text, m.after, [',' as int] + rest);
      StartsSplit(d, end, [',' as int], rest);
      NameReads(cfg, d, p, m.name);
      PaddedReads(cfg, d, p1, m.before, m.tree, m.after, ',' as int, CommaToken, depth);
      MemberTurn(cfg, d, t, p1, v, q, Lexed(CommaToken, end, end + 1), depth, members);
      PairsRead(cfg, d, end + 1, m.rest, depth, WithKey(members, t.token.bytes, v));
    }
  }

  // ---- the whole text ----

  ghost predicate NoZero(s: seq<Byte>)
  {
    forall b | b in s :: b != 0
  }

  lemma {:induction false} RunNoZero(t: seq<Byte>)
    ensures NoZero(t[..DigitRun(t)])
    decreases |t|
  {
    if DigitRun(t) > 0 {
      RunNoZero(t[1..]);
      assert t[..DigitRun(t)] == [t[0]] + t[1..][..DigitRun(t[1..])];
    }
  }

  lemma {:induction false} NoZeroSplit(t: seq<Byte>, n: nat)
    requires n <= |t| && NoZero(t[..n]) && NoZero(t[n..])
    ensures NoZero(t)
  {
    assert t == t[..n] + t[n..];
  }

  lemma {:induction false} ExponentNoZero(t: seq<Byte>)
    requires IsExponent(t)
    ensures NoZero(t)
  {
    hide DigitRun;
    if t != [] {
      var n := if |t| > 1 && (t[1] == '+' as int || t[1] == '-' as int) then 2 else 1;
      RunNoZero(t[n..]);
      assert t[n..][..|t[n..]|] == t[n..];
      NoZeroSplit(t, n);
    }
  }

  lemma {:induction false} FractionNoZero(t: seq<Byte>)
    requires IsFraction(t)
    ensures NoZero(t)
  {
    hide DigitRun, IsExponent, NoZero;
    if t != [] && t[0] == '.' as int {
      var u := t[1..];
      RunNoZero(u);
      assert u[DigitRun(u)..] == t[DigitRun(u) + 1..];
      ExponentNoZero(u[DigitRun(u)..]);
      NoZeroSplit(u, DigitRun(u));
      OneNoZero(t);
    } else {
      ExponentNoZero(t);
    }
  }

  lemma {:induction false} OneNoZero(t: seq<Byte>)
    requires t != [] && t[0] != 0 && NoZero(t[1..])
    ensures NoZero(t)
  {
    assert t == [t[0]] + t[1..];
  }

  /** A number of the grammar has no zero byte. */
  lemma {:induction false} NumberNoZero(t: seq<Byte>)
    requires IsNumber(t)
    ensures NoZero(t)
  {
    hide DigitRun, IsFraction, NoZero;
    var u := if t[0] == '-' as int then t[1..] else t;
    RunNoZero(u);
    FractionNoZero(u[DigitRun(u)..]);
    NoZeroSplit(u, DigitRun(u));
    if t[0] == '-' as int {
      OneNoZero(t);
    }
  }

  lemma {:induction false} ReadBackNoZero(cfg: Config, literal: seq<Byte>)
    requires ReadsBack(cfg, literal)
    ensures NoZero(literal)
  {
    hide IsNumber, Scanned;
    if IsNumber(literal) {
      NumberNoZero(literal);
    }
  }

  lemma {:induction false} CharsNoZero(s: seq<Chr>)
    requires ValidChars(s)
    ensures NoZero(CharsText(s))
  {
    if s != [] {
      CharsNoZero(s[..|s| - 1]);
      hide HexByte;
      ChrNoZero(s[|s| - 1]);
      hide ChrText;
    }
  }

  lemma {:induction false} ChrNoZero(c: Chr)
    requires ValidChr(c)
    ensures NoZero(ChrText(c))
  {
    if c.Unit? {
      UnitNoZero(c.hex);
      hide UnitText;
    } else if c.Surrogates? {
      UnitNoZero(c.high);
      UnitNoZero(c.low);
      hide UnitText;
    }
  }

  lemma {:induction false} UnitNoZero(h: seq<Hex>)
    requires ValidHex(h)
    ensures NoZero(UnitText(h))
  {
    Alphabet(h[0].value);
    Alphabet(h[1].value);
    Alphabet(h[2].value);
    Alphabet(h[3].value);
  }

  lemma {:induction false} TreeNoZero(t: Tree, ok: seq<Byte> -> bool)
    requires Valid(t) && Numerals(t, ok) && forall literal | ok(literal) :: NoZero(literal)
    ensures NoZero(TreeText(t))
    decreases t
  {
    hide StringText;
    match t
    case Quotation(chars) => StringNoZero(chars);
    case Brackets(items) => ItemsNoZero(items, ok);
    case Braces(pairs) => PairsNoZero(pairs, ok);
    case _ =>
  }

  lemma {:induction false} StringNoZero(s: seq<Chr>)
    requires ValidChars(s)
    ensures NoZero(StringText(s))
  {
    hide CharsText;
    CharsNoZero(s);
  }

  lemma {:induction false} ItemsNoZero(i: Items, ok: seq<Byte> -> bool)
    requires ValidItems(i) && ItemsNumerals(i, ok) && forall literal | ok(literal) :: NoZero(literal)
    ensures NoZero(ArrayText(i))
    decreases i
  {
    TreeNoZero(i.tree, ok);
    if i.MoreItems? {
      ItemsNoZero(i.rest, ok);
    }
    hide TreeText;
  }

  lemma {:induction false} PairsNoZero(p: Pairs, ok: seq<Byte> -> bool)
    requires ValidPairs(p) && PairsNumerals(p, ok) && forall literal | ok(literal) :: NoZero(literal)
    ensures NoZero(ObjectText(p))
    decreases p
  {
    hide StringText;
    StringNoZero(p.name.chars);
    TreeNoZero(p.tree, ok);
    if p.MorePairs? {
      PairsNoZero(p.rest, ok);
    }
    hide TreeText;
  }

  /** A document: a value with white space around it, as a C string. */
  function Document(before: seq<Byte>, t: Tree, after: seq<Byte>): (d: Text)
    requires Valid(t)
  {
    before + TreeText(t) + after + [0]
  }

  /** Every text of the grammar within the depth limit is decoded, to the value it stands for: all that is asked of
      strtod is that it takes each number of the text whole. */
  lemma {:induction false} TextDecodes(cfg: Config, before: seq<Byte>, t: Tree, after: seq<Byte>)
    requires ScanStops(cfg) && Blanks(before) && Readable(cfg, t, 0) && Blanks(after)
    ensures JsonParser.Decode(cfg, Document(before, t, after))
      == Done(TreeValue(t), |before + TreeText(t) + after|)
  {
    hide *;
    ReadableValid(cfg, t, 0);
    DocumentNoZero(cfg, before, t, after);
    DocumentReads(cfg, before, t, after);
    OneValue(cfg, Document(before, t, after), TreeValue(t), |before| + |TreeText(t)|);
  }

  lemma {:induction false} OneValue(cfg: Config, d: Text, v: Json, q: nat)
    requires ScanStops(cfg) && (|d| > 2 ==> d[0] != 0 && d[1] != 0) && q < |d|
    requires ParseValue(cfg, d, NextToken(cfg, d, 0), 0) == Done(v, q) && NextToken(cfg, d, q).token == End
    ensures JsonParser.Decode(cfg, d) == Done(v, NextToken(cfg, d, q).next)
  {
    hide NextToken, ParseValue;
  }

  /** Text with a zero among its first two bytes is no UTF-8 and is refused. */
  lemma {:induction false} WideRefused(cfg: Config, d: Text)
    requires ScanStops(cfg) && |d| >= 3 && (d[0] == 0 || d[1] == 0)
    ensures JsonParser.Decode(cfg, d) == Failed(NotUtf8)
  {
  }

  lemma {:induction false} DocumentNoZero(cfg: Config, before: seq<Byte>, t: Tree, after: seq<Byte>)
    requires Blanks(before) && Readable(cfg, t, 0) && Blanks(after)
    ensures var d := Document(before, t, after);
      && |d| == |before + TreeText(t) + after| + 1 && forall k | 0 <= k < |d| - 1 :: d[k] != 0
  {
    forall literal | ReadsBack(cfg, literal)
      ensures NoZero(literal)
    {
      ReadBackNoZero(cfg, literal);
    }
    hide ReadsBack;
    TreeNoZero(t, literal => ReadsBack(cfg, literal));
    hide TreeText, Valid, Levels, Numerals;
    var w := before + TreeText(t) + after;
    assert forall b | b in before :: Blank(b);
    assert forall b | b in after :: Blank(b);
    assert NoZero(w);
    forall k | 0 <= k < |w|
      ensures Document(before, t, after)[k] != 0
    {
      assert w[k] in w;
    }
  }

  lemma {:induction false} DocumentReads(cfg: Config, before: seq<Byte>, t: Tree, after: seq<Byte>)
    requires ScanStops(cfg) && Blanks(before) && Readable(cfg, t, 0) && Blanks(after)
    ensures
      && var d := Document(before, t, after);
      && var q := |before| + |TreeText(t)|;
      && ParseValue(cfg, d, NextToken(cfg, d, 0), 0) == Done(TreeValue(t), q)
      && NextToken(cfg, d, q) == Lexed(End, |d| - 1, |d| - 1)
  {
    hide *;
    ReadableValid(cfg, t, 0);
    var d := Document(before, t, after);
    var q := |before| + |TreeText(t)|;
    StartsWhole(before, t, after);
    Pieces(d, 0, before, TreeText(t), after, [0]);
    BlanksDelimit(d, q, after);
    BlanksSkipped(cfg, d, 0, before);
    TreeReads(cfg, d, |before|, t, 0);
    BlanksSkipped(cfg, d, q, after);
    EndReads(cfg, d, |d| - 1);
  }

  lemma {:induction false} StartsWhole(before: seq<Byte>, t: Tree, after: seq<Byte>)
    requires Valid(t)
    ensures var d := Document(before, t, after);
      && |d| == |before| + |TreeText(t)| + |after| + 1 && StartsWith(d, 0, before + TreeText(t) + after + [0])
      && Delimited(d, |d| - 1)
  {
    hide TreeText, Valid;
    var d := Document(before, t, after);
    assert d[|d| - 1..|d| - 1] == [];
  }

  lemma {:induction false} EndReads(cfg: Config, d: Text, p: nat)
    requires ScanStops(cfg) && p == |d| - 1
    ensures NextToken(cfg, d, p) == Lexed(End, p, p)
  {
  }
}
