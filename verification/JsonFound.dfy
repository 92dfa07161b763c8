/** Nothing but JSON text is decoded: a text json_decode accepts is one of the grammar, and stands for the result. */
module JsonFound {
  import opened Bytes
  import opened Unicode
  import opened Json
  import opened JsonLexer
  import opened JsonParser
  import opened JsonText
  import opened JsonReads

  // ---- white space and single characters ----

  /** A token stands behind white space. */
  lemma {:induction false} BlanksFound(cfg: Config, d: Text, p: nat) returns (before: seq<Byte>)
    requires ScanStops(cfg) && p < |d|
    ensures Blanks(before) && StartsWith(d, p, before) && p + |before| < |d| && !Blank(d[p + |before|])
    ensures NextToken(cfg, d, p) == NextToken(cfg, d, p + |before|)
    decreases |d| - p
  {
    hide NextToken, StartsWith;
    if Blank(d[p]) {
      var rest := BlanksFound(cfg, d, p + 1);
      BlankSkipped(cfg, d, p);
      before := [d[p]] + rest;
      StartsOne(d, p);
      StartsSplit(d, p, [d[p]], rest);
    } else {
      before := [];
      StartsNone(d, p);
    }
  }

  lemma {:induction false} StartsNone(d: seq<Byte>, p: nat)
    requires p <= |d|
    ensures StartsWith(d, p, [])
  {
  }

  lemma {:induction false} StartsOne(d: seq<Byte>, p: nat)
    requires p < |d|
    ensures StartsWith(d, p, [d[p]])
  {
  }

  lemma {:induction false} SingleFound(cfg: Config, d: Text, p: nat, ch: Byte, token: Token)
    requires ScanStops(cfg) && p < |d| && !Blank(d[p]) && NextToken(cfg, d, p).token == token
    requires
      || (ch == '{' as int && token == ObjBegin) || (ch == '}' as int && token == ObjEnd)
      || (ch == '[' as int && token == ArrBegin) || (ch == ']' as int && token == ArrEnd)
      || (ch == ',' as int && token == CommaToken) || (ch == ':' as int && token == ColonToken)
    ensures d[p] == ch && NextToken(cfg, d, p).next == p + 1
  {
    hide StringFrom, NumberFrom, WordFrom, IsInvalidNumber;
    WordTokens(cfg, d, p);
  }

  lemma {:induction false} WordTokens(cfg: Config, d: Text, p: nat)
    requires ScanStops(cfg) && p < |d|
    ensures var t := WordFrom(cfg, d, p).token; t.BooleanToken? || t.NullToken? || t.NumberToken? || t.Error?
  {
    hide StartsWith, IsInvalidNumber;
  }

  /** A token of one character, with the white space before it. */
  lemma {:induction false} MarkFound(cfg: Config, d: Text, p: nat, ch: Byte, token: Token) returns (before: seq<Byte>)
    requires ScanStops(cfg) && p < |d| && NextToken(cfg, d, p).token == token
    requires
      || (ch == '{' as int && token == ObjBegin) || (ch == '}' as int && token == ObjEnd)
      || (ch == '[' as int && token == ArrBegin) || (ch == ']' as int && token == ArrEnd)
      || (ch == ',' as int && token == CommaToken) || (ch == ':' as int && token == ColonToken)
    ensures Blanks(before) && StartsWith(d, p, before) && StartsWith(d, p + |before|, [ch])
    ensures NextToken(cfg, d, p).next == p + |before| + 1
  {
    hide NextToken, StartsWith;
    before := BlanksFound(cfg, d, p);
    SingleFound(cfg, d, p + |before|, ch, token);
    StartsOne(d, p + |before|);
  }

  // ---- strings ----

  lemma {:induction false} HexFound(b: Byte, v: nat) returns (h: Hex)
    requires IsHex(b, v)
    ensures h.value == v < 16 && HexByte(h) == b
  {
    h := Hex(v, b == "0123456789ABCDEF"[v] as int);
  }

  lemma {:induction false} UnitTextFound(d: Text, p: nat, u: nat) returns (h: seq<Hex>)
    requires UnitAt(d, p, u)
    ensures ValidHex(h) && UnitValue(h) == u && StartsWith(d, p, UnitText(h)) && p + 6 < |d|
  {
    var v0: nat, v1: nat, v2: nat, v3: nat :| UnitDigits(d, p, u, v0, v1, v2, v3);
    var h0 := HexFound(d[p + 2], v0);
    var h1 := HexFound(d[p + 3], v1);
    var h2 := HexFound(d[p + 4], v2);
    var h3 := HexFound(d[p + 5], v3);
    hide IsHex, HexByte;
    h := [h0, h1, h2, h3];
    assert d[p..p + 6] == UnitText(h);
  }

  lemma {:induction false} HexChrFound(d: Text, p: nat) returns (c: Chr)
    requires p + 2 < |d| && d[p] == '\\' as int && d[p + 1] == 'u' as int && UnicodeEscape(d, p).Some?
    ensures ValidChr(c) && StartsWith(d, p, ChrText(c)) && p + |ChrText(c)| < |d|
  {
    hide UnitText, UnitAt, Utf8, UnicodeEscape, StartsWith;
    var cp := EscapeOnly(d, p);
    if cp < 0x10000 {
      var h := UnitTextFound(d, p, cp);
      c := Unit(h);
    } else {
      var high := UnitTextFound(d, p, 0xD800 + (cp - 0x10000) / 0x400);
      var low := UnitTextFound(d, p + 6, 0xDC00 + (cp - 0x10000) % 0x400);
      c := Surrogates(high, low);
      StartsSplit(d, p, UnitText(high), UnitText(low));
    }
  }

  /** A character of a string stands here. */
  predicate Goes(d: Text, p: nat)
    requires p < |d|
  {
    && d[p] != '"' as int && d[p] != 0
    && (d[p] == '\\' as int ==>
        EscapeChar(d[p + 1]) != 0 && (EscapeChar(d[p + 1]) == 'u' as int ==> UnicodeEscape(d, p).Some?))
  }

  lemma {:induction false} StringGoes(d: Text, p: nat, acc: seq<Byte>)
    requires p < |d| && d[p] != '"' as int && StringFrom(d, p, acc).token.StringToken?
    ensures Goes(d, p)
  {
    hide UnicodeEscape;
  }

  /** What a string goes on with is a character of the grammar. */
  lemma {:induction false} ChrFound(d: Text, p: nat) returns (c: Chr)
    requires p < |d| && Goes(d, p)
    ensures ValidChr(c) && StartsWith(d, p, ChrText(c)) && p + |ChrText(c)| < |d| && |ChrText(c)| > 0
  {
    hide UnicodeEscape, UnitText;
    if d[p] != '\\' as int {
      c := Raw(d[p]);
      assert d[p..p + 1] == [d[p]];
    } else if d[p + 1] != 'u' as int {
      c := Short(d[p + 1]);
      assert d[p..p + 2] == [d[p], d[p + 1]];
    } else {
      hide StartsWith;
      c := HexChrFound(d, p);
    }
  }

  lemma {:induction false} CharsCons(c: Chr, s: seq<Chr>)
    requires ValidChr(c) && ValidChars(s)
    ensures ValidChars([c] + s)
    ensures CharsText([c] + s) == ChrText(c) + CharsText(s) && CharsBytes([c] + s) == ChrBytes(c) + CharsBytes(s)
  {
    hide ChrText, ChrBytes, ValidChr;
    var t := [c] + s;
    if s == [] {
      assert t == [c] && t[..0] == [];
    } else {
      var front := s[..|s| - 1];
      CharsCons(c, front);
      assert t[..|t| - 1] == [c] + front && t[|t| - 1] == s[|s| - 1];
      Regroup(ChrText(c), CharsText(front), ChrText(s[|s| - 1]));
      Regroup(ChrBytes(c), CharsBytes(front), ChrBytes(s[|s| - 1]));
    }
  }

  lemma {:induction false} CharsFound(d: Text, p: nat, acc: seq<Byte>) returns (s: seq<Chr>)
    requires p < |d| && StringFrom(d, p, acc).token.StringToken?
    ensures ValidChars(s) && StartsWith(d, p, CharsText(s)) && p + |CharsText(s)| < |d|
    ensures StartsWith(d, p + |CharsText(s)|, ['"' as int])
    ensures StringFrom(d, p, acc) == Lexed(StringToken(acc + CharsBytes(s)), p + |CharsText(s)|, p + |CharsText(s)| + 1)
    decreases |d| - p
  {
    hide *;
    if d[p] == '"' as int {
      s := [];
      NoChars(acc);
      StartsNone(d, p);
      StartsOne(d, p);
      StringEnds(d, p, acc);
    } else {
      StringGoes(d, p, acc);
      var c := ChrFound(d, p);
      ChrReads(d, p, c, acc);
      var rest := CharsFound(d, p + |ChrText(c)|, acc + ChrBytes(c));
      s := [c] + rest;
      CharsCons(c, rest);
      StartsSplit(d, p, ChrText(c), CharsText(rest));
      Regroup(acc, ChrBytes(c), CharsBytes(rest));
    }
  }

  lemma {:induction false} NoChars(acc: seq<Byte>)
    ensures ValidChars([]) && CharsText([]) == [] && acc + CharsBytes([]) == acc
  {
  }

  lemma {:induction false} StringFound(cfg: Config, d: Text, p: nat) returns (s: seq<Chr>)
    requires ScanStops(cfg) && p < |d| && !Blank(d[p]) && NextToken(cfg, d, p).token.StringToken?
    ensures ValidChars(s) && StartsWith(d, p, StringText(s)) && NextToken(cfg, d, p).next == p + |StringText(s)|
    ensures NextToken(cfg, d, p).token == StringToken(CharsBytes(s))
  {
    hide *;
    StringBegins(cfg, d, p);
    s := CharsFound(d, p + 1, []);
    StartsOne(d, p);
    StartsSplit(d, p, ['"' as int], CharsText(s));
    StartsSplit(d, p, ['"' as int] + CharsText(s), ['"' as int]);
    StringMeans(s);
  }

  lemma {:induction false} StringMeans(s: seq<Chr>)
    requires ValidChars(s)
    ensures StringText(s) == ['"' as int] + CharsText(s) + ['"' as int] && [] + CharsBytes(s) == CharsBytes(s)
  {
  }

  lemma {:induction false} StringBegins(cfg: Config, d: Text, p: nat)
    requires ScanStops(cfg) && p < |d| && !Blank(d[p]) && NextToken(cfg, d, p).token.StringToken?
    ensures d[p] == '"' as int && p + 1 < |d| && StringFrom(d, p + 1, []).token.StringToken?
    ensures NextToken(cfg, d, p) == StringFrom(d, p + 1, []).(index := p)
  {
    hide StringFrom, NumberFrom, WordFrom, IsInvalidNumber;
    WordTokens(cfg, d, p);
    NumberTokens(cfg, d, p);
  }

  lemma {:induction false} NumberTokens(cfg: Config, d: Text, p: nat)
    requires ScanStops(cfg) && p < |d|
    ensures var t := NumberFrom(cfg, d, p).token; t.NumberToken? || t.Error?
  {
  }

  // ---- numbers and words ----

  /** What the settings refuse is no number: unless they let it through it begins with a digit or a minus, has no
      leading zero, is not hexadecimal, and is neither infinite nor not a number. */
  predicate NotRefused(cfg: Config, literal: seq<Byte>)
  {
    && literal != []
    && (cfg.decodeInvalidNumbers
        || ((literal[0] == '-' as int || IsDigit(literal[0]))
            && var u := if literal[0] == '-' as int then literal[1..] else literal;
               && (|u| > 1 && u[0] == '0' as int ==>
                   u[1] != 'x' as int && u[1] != 'X' as int && !IsDigit(u[1]))
               && !NoCase(u, 'i' as int, 'n' as int, 'f' as int) && !NoCase(u, 'n' as int, 'a' as int, 'n' as int)))
  }

  lemma {:induction false} NumberFound(cfg: Config, d: Text, p: nat) returns (literal: seq<Byte>)
    requires ScanStops(cfg) && p < |d| && !Blank(d[p]) && NextToken(cfg, d, p).token.NumberToken?
    ensures StartsWith(d, p, literal) && NextToken(cfg, d, p) == Lexed(NumberToken(literal), p, p + |literal|)
    ensures NotRefused(cfg, literal)
  {
    literal := NextToken(cfg, d, p).token.literal;
    if !cfg.decodeInvalidNumbers {
      NumberAllowed(cfg, d, p);
      Kept(cfg, d, p, literal);
    } else {
      hide StringFrom;
    }
  }

  lemma {:induction false} NumberAllowed(cfg: Config, d: Text, p: nat)
    requires ScanStops(cfg) && p < |d| && !Blank(d[p]) && NextToken(cfg, d, p).token.NumberToken?
    requires !cfg.decodeInvalidNumbers
    ensures !IsInvalidNumber(d, p) && (d[p] == '-' as int || IsDigit(d[p]))
    ensures NextToken(cfg, d, p) == NumberFrom(cfg, d, p)
  {
    hide StringFrom, NumberFrom, IsInvalidNumber, StartsWith;
  }

  lemma {:induction false} Kept(cfg: Config, d: Text, p: nat, literal: seq<Byte>)
    requires p < |d| && StartsWith(d, p, literal) && literal != []
    requires !IsInvalidNumber(d, p) && (d[p] == '-' as int || IsDigit(d[p]))
    ensures NotRefused(cfg, literal)
  {
    forall k: nat | k < |literal|
      ensures p + k < |d| && d[p + k] == literal[k]
    {
      StartsAt(d, p, literal, k);
    }
    hide StartsWith;
  }

  lemma {:induction false} WordFound(cfg: Config, d: Text, p: nat) returns (t: Tree)
    requires ScanStops(cfg) && p < |d| && !Blank(d[p])
    requires NextToken(cfg, d, p).token.BooleanToken? || NextToken(cfg, d, p).token.NullToken?
    ensures t == match NextToken(cfg, d, p).token
                 case BooleanToken(b) => if b then TrueWord else FalseWord
                 case _ => NullWord
    ensures StartsWith(d, p, TreeText(t)) && NextToken(cfg, d, p).next == p + |TreeText(t)|
  {
    hide StringFrom, NumberFrom, IsInvalidNumber;
    NumberTokens(cfg, d, p);
    t := match NextToken(cfg, d, p).token
         case BooleanToken(b) => if b then TrueWord else FalseWord
         case _ => NullWord;
  }

  // ---- values ----

  /** The value read at p is the one the tree stands for, and the text read is the tree's. */
  ghost predicate FoundAt(cfg: Config, d: Text, p: nat, depth: nat, t: Tree)
    requires ScanStops(cfg)
  {
    && p < |d| && Valid(t) && StartsWith(d, p, TreeText(t))
    && ParseValue(cfg, d, NextToken(cfg, d, p), depth) == Done(TreeValue(t), p + |TreeText(t)|)
    && depth + Levels(t) <= cfg.decodeMaxDepth && Numerals(t, literal => NotRefused(cfg, literal))
  }

  ghost predicate ItemsFoundAt(cfg: Config, d: Text, p: nat, depth: nat, items: seq<Json>, i: Items)
    requires ScanStops(cfg)
  {
    && p < |d| && ValidItems(i) && StartsWith(d, p, ArrayText(i))
    && ParseItems(cfg, d, NextToken(cfg, d, p), depth, items)
       == Done(Array(items + ItemsValue(i)), p + |ArrayText(i)|)
    && depth + ItemsLevels(i) <= cfg.decodeMaxDepth && ItemsNumerals(i, literal => NotRefused(cfg, literal))
  }

  ghost predicate PairsFoundAt(cfg: Config, d: Text, p: nat, depth: nat, members: seq<Member>, m: Pairs)
    requires ScanStops(cfg)
  {
    && p < |d| && ValidPairs(m) && StartsWith(d, p, ObjectText(m))
    && ParseMembers(cfg, d, NextToken(cfg, d, p), depth, members)
       == Done(Object(PairsValue(m, members)), p + |ObjectText(m)|)
    && depth + PairsLevels(m) <= cfg.decodeMaxDepth && PairsNumerals(m, literal => NotRefused(cfg, literal))
  }

  /** A value that was parsed is the text of a tree, with white space before it. */
  lemma {:induction false} TreeFound(cfg: Config, d: Text, p: nat, depth: nat) returns (before: seq<Byte>, t: Tree)
    requires ScanStops(cfg) && p < |d| && depth <= cfg.decodeMaxDepth
    requires ParseValue(cfg, d, NextToken(cfg, d, p), depth).Done?
    ensures Blanks(before) && StartsWith(d, p, before) && p + |before| < |d|
    ensures NextToken(cfg, d, p) == NextToken(cfg, d, p + |before|) && FoundAt(cfg, d, p + |before|, depth, t)
    decreases |d| - p, 1
  {
    hide *;
    before := BlanksFound(cfg, d, p);
    var q := p + |before|;
    var token := NextToken(cfg, d, q).token;
    if token.ArrBegin? {
      t := ArrayFound(cfg, d, q, depth);
    } else if token.ObjBegin? {
      t := ObjectFound(cfg, d, q, depth);
    } else {
      t := LeafFound(cfg, d, q, depth);
    }
  }

  lemma {:induction false} LeafFound(cfg: Config, d: Text, p: nat, depth: nat) returns (t: Tree)
    requires ScanStops(cfg) && p < |d| && !Blank(d[p]) && depth <= cfg.decodeMaxDepth
    requires ParseValue(cfg, d, NextToken(cfg, d, p), depth).Done?
    requires !NextToken(cfg, d, p).token.ArrBegin? && !NextToken(cfg, d, p).token.ObjBegin?
    ensures FoundAt(cfg, d, p, depth, t)
  {
    hide NextToken, StartsWith, NotRefused, StringText, CharsBytes, ValidChars;
    var token := NextToken(cfg, d, p).token;
    if token.StringToken? {
      var s := StringFound(cfg, d, p);
      t := Quotation(s);
    } else if token.NumberToken? {
      var literal := NumberFound(cfg, d, p);
      t := Numeral(literal);
    } else {
      t := WordFound(cfg, d, p);
    }
  }

  /** What was parsed behind a bracket. */
  lemma {:induction false} ArrayParts(cfg: Config, d: Text, t: Lexed, depth: nat)
    requires ScanStops(cfg) && t.next < |d| && t.token == ArrBegin && ParseValue(cfg, d, t, depth).Done?
    ensures depth < cfg.decodeMaxDepth
    ensures var t1 := NextToken(cfg, d, t.next);
      if t1.token.ArrEnd? then ParseValue(cfg, d, t, depth) == Done(Object([]), t1.next)
      else ParseItems(cfg, d, t1, depth + 1, []).Done?
  {
    hide NextToken;
  }

  lemma {:induction false} ArrayFound(cfg: Config, d: Text, p: nat, depth: nat) returns (t: Tree)
    requires ScanStops(cfg) && p < |d| && !Blank(d[p]) && depth <= cfg.decodeMaxDepth
    requires NextToken(cfg, d, p).token.ArrBegin? && ParseValue(cfg, d, NextToken(cfg, d, p), depth).Done?
    ensures FoundAt(cfg, d, p, depth, t)
    decreases |d| - p, 0
  {
    hide *;
    SingleFound(cfg, d, p, '[' as int, ArrBegin);
    StartsOne(d, p);
    ArrayParts(cfg, d, NextToken(cfg, d, p), depth);
    if NextToken(cfg, d, p + 1).token.ArrEnd? {
      var blank := MarkFound(cfg, d, p + 1, ']' as int, ArrEnd);
      StartsSplit(d, p, ['[' as int], blank);
      StartsSplit(d, p, ['[' as int] + blank, [']' as int]);
      t := EmptyBrackets(blank);
      EmptyFound(cfg, d, p, depth, t);
    } else {
      var i := ItemsFound(cfg, d, p + 1, depth + 1, []);
      t := Brackets(i);
      BracketsFound(cfg, d, p, depth, i);
    }
  }

  lemma {:induction false} EmptyFound(cfg: Config, d: Text, p: nat, depth: nat, t: Tree)
    requires ScanStops(cfg) && p < |d| && depth < cfg.decodeMaxDepth
    requires (t.EmptyBrackets? || t.EmptyBraces?) && Blanks(t.blank)
    requires var open, close := if t.EmptyBrackets? then '[' as int else '{' as int,
                                if t.EmptyBrackets? then ']' as int else '}' as int;
      StartsWith(d, p, [open] + t.blank + [close])
    requires ParseValue(cfg, d, NextToken(cfg, d, p), depth) == Done(Object([]), p + |t.blank| + 2)
    ensures FoundAt(cfg, d, p, depth, t)
  {
    hide NextToken, ParseValue, StartsWith;
  }

  lemma {:induction false} BracketsFound(cfg: Config, d: Text, p: nat, depth: nat, i: Items)
    requires ScanStops(cfg) && p < |d| && depth < cfg.decodeMaxDepth && StartsWith(d, p, ['[' as int])
    requires NextToken(cfg, d, p).token == ArrBegin && NextToken(cfg, d, p).next == p + 1
    requires ItemsFoundAt(cfg, d, p + 1, depth + 1, [], i)
    ensures FoundAt(cfg, d, p, depth, Brackets(i))
  {
    hide NextToken, ParseValue, ParseItems, StartsWith, ArrayText, ItemsValue;
    StartsSplit(d, p, ['[' as int], ArrayText(i));
    ArrayTurn(cfg, d, NextToken(cfg, d, p), depth);
    assert [] + ItemsValue(i) == ItemsValue(i);
  }

  /** What was parsed of an item and behind it. */
  lemma {:induction false} ItemsParts(cfg: Config, d: Text, t: Lexed, depth: nat, items: seq<Json>)
    requires ScanStops(cfg) && t.next < |d| && ParseItems(cfg, d, t, depth, items).Done?
    ensures var r := ParseValue(cfg, d, t, depth);
      && r.Done?
      && var t2 := NextToken(cfg, d, r.next);
      && (t2.token.ArrEnd?
          || (t2.token.CommaToken? && ParseItems(cfg, d, NextToken(cfg, d, t2.next), depth, items + [r.value]).Done?))
  {
    hide NextToken, ParseValue;
  }

  /** A value was found at p behind white space, then white space and the character c, whose token it is. */
  ghost predicate PaddedFound(
    cfg: Config, d: Text, p: nat, before: seq<Byte>, t: Tree, after: seq<Byte>, c: Byte, token: Token, depth: nat)
    requires ScanStops(cfg)
  {
    && p < |d| && Blanks(before) && StartsWith(d, p, before) && p + |before| < |d|
    && NextToken(cfg, d, p) == NextToken(cfg, d, p + |before|) && FoundAt(cfg, d, p + |before|, depth, t)
    && var q := p + |before| + |TreeText(t)|;
       && Blanks(after) && StartsWith(d, q, after) && StartsWith(d, q + |after|, [c]) && q < |d|
       && NextToken(cfg, d, q).token == token && NextToken(cfg, d, q).next == q + |after| + 1
  }

  /** The pieces found make up the items. */
  lemma {:induction false} ItemsJoin(cfg: Config, d: Text, p: nat, depth: nat, items: seq<Json>, i: Items)
    requires ScanStops(cfg)
    requires
      if i.LastItem? then PaddedFound(cfg, d, p, i.before, i.tree, i.after, ']' as int, ArrEnd, depth)
      else
        && PaddedFound(cfg, d, p, i.before, i.tree, i.after, ',' as int, CommaToken, depth)
        && ItemsFoundAt(
             cfg, d, p + |i.before| + |TreeText(i.tree)| + |i.after| + 1, depth, items + [TreeValue(i.tree)], i.rest)
    ensures ItemsFoundAt(cfg, d, p, depth, items, i)
  {
    hide NextToken, ParseValue, ParseItems, StartsWith, TreeText, TreeValue, Valid, Levels, Numerals, Blanks, ArrayText,
      ItemsValue;
    var text, q := TreeText(i.tree), p + |i.before| + |TreeText(i.tree)|;
    ItemTurn(cfg, d, p, TreeValue(i.tree), q, NextToken(cfg, d, q), depth, items);
    FirstItem(i, items);
    if i.LastItem? {
      Pieces(d, p, i.before, text, i.after, [']' as int]);
    } else {
      StartsSplit(d, q + |i.after|, [',' as int], ArrayText(i.rest));
      Pieces(d, p, i.before, text, i.after, [',' as int] + ArrayText(i.rest));
    }
  }

  lemma {:induction false} ItemsFound(cfg: Config, d: Text, p: nat, depth: nat, items: seq<Json>) returns (i: Items)
    requires ScanStops(cfg) && p < |d| && depth <= cfg.decodeMaxDepth
    requires ParseItems(cfg, d, NextToken(cfg, d, p), depth, items).Done?
    ensures ItemsFoundAt(cfg, d, p, depth, items, i)
    decreases |d| - p, 2
  {
    hide NextToken, ParseValue, ParseItems, StartsWith, TreeText, TreeValue, Valid, Blanks, FoundAt, ItemsFoundAt;
    hide ScanStops;
    ItemsParts(cfg, d, NextToken(cfg, d, p), depth, items);
    var before, t := TreeFound(cfg, d, p, depth);
    FoundMeans(cfg, d, p + |before|, depth, t);
    var q := p + |before| + |TreeText(t)|;
    if NextToken(cfg, d, q).token.ArrEnd? {
      var after := MarkFound(cfg, d, q, ']' as int, ArrEnd);
      i := LastItem(before, t, after);
    } else {
      var after := MarkFound(cfg, d, q, ',' as int, CommaToken);
      var rest := ItemsFound(cfg, d, q + |after| + 1, depth, items + [TreeValue(t)]);
      i := MoreItems(before, t, after, rest);
    }
    ItemsJoin(cfg, d, p, depth, items, i);
  }

  lemma {:induction false} FoundMeans(cfg: Config, d: Text, p: nat, depth: nat, t: Tree)
    requires ScanStops(cfg) && FoundAt(cfg, d, p, depth, t)
    ensures p < |d| && Valid(t)
    ensures ParseValue(cfg, d, NextToken(cfg, d, p), depth) == Done(TreeValue(t), p + |TreeText(t)|)
  {
  }

  lemma {:induction false} ObjectParts(cfg: Config, d: Text, t: Lexed, depth: nat)
    requires ScanStops(cfg) && t.next < |d| && t.token == ObjBegin && ParseValue(cfg, d, t, depth).Done?
    ensures depth < cfg.decodeMaxDepth
    ensures var t1 := NextToken(cfg, d, t.next);
      if t1.token.ObjEnd? then ParseValue(cfg, d, t, depth) == Done(Object([]), t1.next)
      else ParseMembers(cfg, d, t1, depth + 1, []).Done?
  {
    hide NextToken;
  }

  lemma {:induction false} ObjectFound(cfg: Config, d: Text, p: nat, depth: nat) returns (t: Tree)
    requires ScanStops(cfg) && p < |d| && !Blank(d[p]) && depth <= cfg.decodeMaxDepth
    requires NextToken(cfg, d, p).token.ObjBegin? && ParseValue(cfg, d, NextToken(cfg, d, p), depth).Done?
    ensures FoundAt(cfg, d, p, depth, t)
    decreases |d| - p, 0
  {
    hide *;
    SingleFound(cfg, d, p, '{' as int, ObjBegin);
    StartsOne(d, p);
    ObjectParts(cfg, d, NextToken(cfg, d, p), depth);
    if NextToken(cfg, d, p + 1).token.ObjEnd? {
      var blank := MarkFound(cfg, d, p + 1, '}' as int, ObjEnd);
      StartsSplit(d, p, ['{' as int], blank);
      StartsSplit(d, p, ['{' as int] + blank, ['}' as int]);
      t := EmptyBraces(blank);
      EmptyFound(cfg, d, p, depth, t);
    } else {
      var m := PairsFound(cfg, d, p + 1, depth + 1, []);
      t := Braces(m);
      BracesFound(cfg, d, p, depth, m);
    }
  }

  lemma {:induction false} BracesFound(cfg: Config, d: Text, p: nat, depth: nat, m: Pairs)
    requires ScanStops(cfg) && p < |d| && depth < cfg.decodeMaxDepth && StartsWith(d, p, ['{' as int])
    requires NextToken(cfg, d, p).token == ObjBegin && NextToken(cfg, d, p).next == p + 1
    requires PairsFoundAt(cfg, d, p + 1, depth + 1, [], m)
    ensures FoundAt(cfg, d, p, depth, Braces(m))
  {
    hide NextToken, ParseValue, ParseMembers, StartsWith, ObjectText, PairsValue;
    StartsSplit(d, p, ['{' as int], ObjectText(m));
    ObjectTurn(cfg, d, NextToken(cfg, d, p), depth);
  }

  /** What was parsed of a member and behind it. */
  lemma {:induction false} MembersParts(cfg: Config, d: Text, t: Lexed, depth: nat, members: seq<Member>)
    requires ScanStops(cfg) && t.next < |d| && ParseMembers(cfg, d, t, depth, members).Done?
    ensures
      && t.token.StringToken?
      && var colon := NextToken(cfg, d, t.next);
      && colon.token.ColonToken?
      && var r := ParseValue(cfg, d, NextToken(cfg, d, colon.next), depth);
      && r.Done?
      && var t2 := NextToken(cfg, d, r.next);
      && (t2.token.ObjEnd?
          || (t2.token.CommaToken?
              && ParseMembers(
                cfg, d, NextToken(cfg, d, t2.next), depth, WithKey(members, t.token.bytes, r.value)).Done?))
  {
    hide NextToken, ParseValue, WithKey;
  }

  /** A name was found at p, with the colon behind it. */
  ghost predicate NamedFound(cfg: Config, d: Text, p: nat, n: Name)
    requires ScanStops(cfg)
  {
    && p < |d| && ValidName(n) && StartsWith(d, p, NameText(n))
    && NextToken(cfg, d, p).token == StringToken(CharsBytes(n.chars))
    && NextToken(cfg, d, NextToken(cfg, d, p).next).token == ColonToken
    && NextToken(cfg, d, NextToken(cfg, d, p).next).next == p + |NameText(n)|
  }

  /** A name and its colon. */
  lemma {:induction false} NameFound(cfg: Config, d: Text, p: nat) returns (n: Name)
    requires ScanStops(cfg) && p < |d| && NextToken(cfg, d, p).token.StringToken?
    requires NextToken(cfg, d, NextToken(cfg, d, p).next).token.ColonToken?
    ensures NamedFound(cfg, d, p, n) && ValidName(n) && ValidChars(n.chars)
    ensures NextToken(cfg, d, p).token == StringToken(CharsBytes(n.chars))
    ensures NextToken(cfg, d, NextToken(cfg, d, p).next).next == p + |NameText(n)|
  {
    hide NextToken, ParseValue, StartsWith, Blanks, CharsBytes, ValidChars, StringText, NameText, ScanStops;
    var before := BlanksFound(cfg, d, p);
    var s := StringFound(cfg, d, p + |before|);
    var after := MarkFound(cfg, d, p + |before| + |StringText(s)|, ':' as int, ColonToken);
    n := Name(before, s, after);
    Pieces(d, p, before, StringText(s), after, [':' as int]);
    NameMeans(n);
  }

  lemma {:induction false} NameMeans(n: Name)
    requires Blanks(n.before) && ValidChars(n.chars) && Blanks(n.after)
    ensures ValidName(n) && NameText(n) == n.before + StringText(n.chars) + n.after + [':' as int]
  {
  }

  /** The pieces found make up the members. */
  lemma {:induction false} PairsJoin(cfg: Config, d: Text, p: nat, depth: nat, members: seq<Member>, m: Pairs)
    requires ScanStops(cfg) && NamedFound(cfg, d, p, m.name)
    requires
      && var p1 := p + |NameText(m.name)|;
      && if m.LastPair? then PaddedFound(cfg, d, p1, m.before, m.tree, m.after, '}' as int, ObjEnd, depth)
         else
           && PaddedFound(cfg, d, p1, m.before, m.tree, m.after, ',' as int, CommaToken, depth)
           && PairsFoundAt(
                cfg, d, p1 + |m.before| + |TreeText(m.tree)| + |m.after| + 1, depth,
                WithKey(members, CharsBytes(m.name.chars), TreeValue(m.tree)), m.rest)
    ensures PairsFoundAt(cfg, d, p, depth, members, m)
  {
    hide NextToken, ParseValue, ParseMembers, StartsWith, TreeText, TreeValue, Valid, Levels, Numerals, Blanks,
      ObjectText, PairsValue, WithKey, NameText, ValidName, ValidChars, CharsBytes;
    var text, p1 := TreeText(m.tree), p + |NameText(m.name)|;
    var q := p1 + |m.before| + |text|;
    MemberTurn(cfg, d, NextToken(cfg, d, p), p1, TreeValue(m.tree), q, NextToken(cfg, d, q), depth, members);
    FirstPair(m, members);
    var tail := if m.LastPair? then ['}' as int] else [',' as int] + ObjectText(m.rest);
    if m.MorePairs? {
      StartsSplit(d, q + |m.after|, [',' as int], ObjectText(m.rest));
    }
    Pieces(d, p1, m.before, text, m.after, tail);
    StartsSplit(d, p, NameText(m.name), m.before + text + m.after + tail);
  }

  lemma {:induction false} PairsFound(cfg: Config, d: Text, p: nat, depth: nat, members: seq<Member>) returns (m: Pairs)
    requires ScanStops(cfg) && p < |d| && depth <= cfg.decodeMaxDepth
    requires ParseMembers(cfg, d, NextToken(cfg, d, p), depth, members).Done?
    ensures PairsFoundAt(cfg, d, p, depth, members, m)
    decreases |d| - p, 2
  {
    hide NextToken, ParseValue, ParseMembers, StartsWith, TreeText, TreeValue, Valid, Blanks, FoundAt, PairsFoundAt;
    hide ScanStops, WithKey, CharsBytes, NameText, ValidChars, ValidName, NamedFound;
    MembersParts(cfg, d, NextToken(cfg, d, p), depth, members);
    var name := NameFound(cfg, d, p);
    var p1 := p + |NameText(name)|;
    var before, t := TreeFound(cfg, d, p1, depth);
    FoundMeans(cfg, d, p1 + |before|, depth, t);
    var q := p1 + |before| + |TreeText(t)|;
    if NextToken(cfg, d, q).token.ObjEnd? {
      var after := MarkFound(cfg, d, q, '}' as int, ObjEnd);
      m := LastPair(name, before, t, after);
    } else {
      var after := MarkFound(cfg, d, q, ',' as int, CommaToken);
      var stored := WithKey(members, CharsBytes(name.chars), TreeValue(t));
      var rest := PairsFound(cfg, d, q + |after| + 1, depth, stored);
      m := MorePairs(name, before, t, after, rest);
    }
    PairsJoin(cfg, d, p, depth, members, m);
  }

  // ---- the whole text ----

  /** Whatever is decoded is JSON text, up to the zero byte decoding stops at, and the result is what it stands for. */
  lemma {:induction false} DecodedIsText(cfg: Config, d: Text) returns (before: seq<Byte>, t: Tree, after: seq<Byte>)
    requires ScanStops(cfg) && JsonParser.Decode(cfg, d).Done?
    ensures Blanks(before) && Valid(t) && Blanks(after)
    ensures StartsWith(d, 0, Document(before, t, after))
    ensures JsonParser.Decode(cfg, d) == Done(TreeValue(t), |before + TreeText(t) + after|)
    ensures Levels(t) <= cfg.decodeMaxDepth && Numerals(t, literal => NotRefused(cfg, literal))
  {
    hide NextToken, ParseValue, StartsWith, TreeText, TreeValue, Levels, Numerals, Valid, Blanks;
    before, t := TreeFound(cfg, d, 0, 0);
    var q := |before| + |TreeText(t)|;
    after := BlanksFound(cfg, d, q);
    EndFound(cfg, d, q + |after|);
    StartsOne(d, q + |after|);
    Pieces(d, 0, before, TreeText(t), after, [0]);
  }

  lemma {:induction false} EndFound(cfg: Config, d: Text, p: nat)
    requires ScanStops(cfg) && p < |d| && !Blank(d[p]) && NextToken(cfg, d, p).token.End?
    ensures d[p] == 0 && NextToken(cfg, d, p).next == p
  {
    hide StringFrom, NumberFrom, WordFrom, IsInvalidNumber;
    WordTokens(cfg, d, p);
    NumberTokens(cfg, d, p);
  }

  // ---- what an error says ----

  /** No token of the wanted kind. */
  predicate Unwanted(wanted: Wanted, found: Token)
  {
    match wanted
    case ObjectKey => !found.StringToken?
    case AColon => !found.ColonToken?
    case CommaOrObjectEnd => !found.CommaToken? && !found.ObjEnd?
    case CommaOrArrayEnd => !found.CommaToken? && !found.ArrEnd?
    case AValue =>
      found.ObjEnd? || found.ArrEnd? || found.ColonToken? || found.CommaToken? || found.End? || found.Error?
    case TheEnd => !found.End?
  }

  /** The token at a position of the text, and where it was found. */
  ghost predicate TokenAt(cfg: Config, d: Text, token: Token, index: nat, p: nat)
    requires ScanStops(cfg)
  {
    p < |d| && NextToken(cfg, d, p).token == token && NextToken(cfg, d, p).index == index
  }

  /** An error names a token that stands in the text where it says and is not of the kind it says was wanted; or it
      names the first bracket or brace that opens one table too many. */
  ghost predicate Founded(cfg: Config, d: Text, f: Fault)
    requires ScanStops(cfg)
  {
    match f
    case Unexpected(wanted, found, index) =>
      Unwanted(wanted, found) && exists p: nat :: TokenAt(cfg, d, found, index, p)
    case TooDeep(depth, at) =>
      && depth == cfg.decodeMaxDepth + 1 && 0 < at <= |d|
      && (d[at - 1] == '[' as int || d[at - 1] == '{' as int)
    case NotUtf8 => |d| > 2 && (d[0] == 0 || d[1] == 0)
  }

  lemma {:induction false} MissingFounded(cfg: Config, d: Text, wanted: Wanted, p: nat)
    requires ScanStops(cfg) && p < |d| && Unwanted(wanted, NextToken(cfg, d, p).token)
    ensures Founded(cfg, d, Missing(wanted, NextToken(cfg, d, p)).fault)
  {
    hide NextToken, Unwanted;
    var t := NextToken(cfg, d, p);
    assert TokenAt(cfg, d, t.token, t.index, p);
  }

  /** A bracket or brace at the end of the token. */
  lemma {:induction false} OpensTable(cfg: Config, d: Text, p: nat)
    requires ScanStops(cfg) && p < |d| && (NextToken(cfg, d, p).token.ArrBegin? || NextToken(cfg, d, p).token.ObjBegin?)
    ensures var t := NextToken(cfg, d, p);
      0 < t.next < |d| && d[t.next - 1] == if t.token.ArrBegin? then '[' as int else '{' as int
  {
    hide NextToken, StartsWith;
    if NextToken(cfg, d, p).token.ArrBegin? {
      var before := MarkFound(cfg, d, p, '[' as int, ArrBegin);
      StartsAt(d, p + |before|, ['[' as int], 0);
    } else {
      var before := MarkFound(cfg, d, p, '{' as int, ObjBegin);
      StartsAt(d, p + |before|, ['{' as int], 0);
    }
  }

  lemma {:induction false} ValueFounded(cfg: Config, d: Text, p: nat, depth: nat)
    requires ScanStops(cfg) && p < |d| && depth <= cfg.decodeMaxDepth
    requires ParseValue(cfg, d, NextToken(cfg, d, p), depth).Failed?
    ensures Founded(cfg, d, ParseValue(cfg, d, NextToken(cfg, d, p), depth).fault)
    decreases |d| - p, 0
  {
    hide NextToken, Founded;
    var t := NextToken(cfg, d, p);
    if t.token.ArrBegin? || t.token.ObjBegin? {
      OpensTable(cfg, d, p);
      if depth + 1 > cfg.decodeMaxDepth {
        DeepFounded(cfg, d, depth + 1, t.next);
      } else if t.token.ArrBegin? {
        ItemsFounded(cfg, d, t.next, depth + 1, []);
      } else {
        MembersFounded(cfg, d, t.next, depth + 1, []);
      }
    } else {
      MissingFounded(cfg, d, AValue, p);
    }
  }

  lemma {:induction false} DeepFounded(cfg: Config, d: Text, depth: nat, at: nat)
    requires ScanStops(cfg) && depth == cfg.decodeMaxDepth + 1 && 0 < at < |d|
    requires d[at - 1] == '[' as int || d[at - 1] == '{' as int
    ensures Founded(cfg, d, TooDeep(depth, at))
  {
  }

  lemma {:induction false} ItemsFounded(cfg: Config, d: Text, p: nat, depth: nat, items: seq<Json>)
    requires ScanStops(cfg) && p < |d| && depth <= cfg.decodeMaxDepth
    requires ParseItems(cfg, d, NextToken(cfg, d, p), depth, items).Failed?
    ensures Founded(cfg, d, ParseItems(cfg, d, NextToken(cfg, d, p), depth, items).fault)
    decreases |d| - p, 1
  {
    hide NextToken, Founded, ParseValue;
    match ParseValue(cfg, d, NextToken(cfg, d, p), depth) {
      case Failed(_) => ValueFounded(cfg, d, p, depth);
      case Done(value, q) =>
        Forward(cfg, d, p);
        var t := NextToken(cfg, d, q);
        if t.token.CommaToken? {
          ItemsFounded(cfg, d, t.next, depth, items + [value]);
        } else {
          MissingFounded(cfg, d, CommaOrArrayEnd, q);
        }
    }
  }

  /** Tokens do not go back. */
  lemma {:induction false} Forward(cfg: Config, d: Text, p: nat)
    requires ScanStops(cfg) && p < |d|
    ensures NextToken(cfg, d, p).next >= p
  {
    hide NextToken;
  }

  lemma {:induction false} MembersFounded(cfg: Config, d: Text, p: nat, depth: nat, members: seq<Member>)
    requires ScanStops(cfg) && p < |d| && depth <= cfg.decodeMaxDepth
    requires ParseMembers(cfg, d, NextToken(cfg, d, p), depth, members).Failed?
    ensures Founded(cfg, d, ParseMembers(cfg, d, NextToken(cfg, d, p), depth, members).fault)
    decreases |d| - p, 1
  {
    hide NextToken, Founded, ParseValue, WithKey;
    var t := NextToken(cfg, d, p);
    if !t.token.StringToken? {
      MissingFounded(cfg, d, ObjectKey, p);
    } else if !NextToken(cfg, d, t.next).token.ColonToken? {
      MissingFounded(cfg, d, AColon, t.next);
    } else {
      var p1 := NextToken(cfg, d, t.next).next;
      match ParseValue(cfg, d, NextToken(cfg, d, p1), depth) {
        case Failed(_) => ValueFounded(cfg, d, p1, depth);
        case Done(value, q) =>
          Forward(cfg, d, p1);
          var t2 := NextToken(cfg, d, q);
          if t2.token.CommaToken? {
            MembersFounded(cfg, d, t2.next, depth, WithKey(members, t.token.bytes, value));
          } else {
            MissingFounded(cfg, d, CommaOrObjectEnd, q);
          }
      }
    }
  }

  /** Every error of json_decode is founded. */
  lemma {:induction false} ErrorsFounded(cfg: Config, d: Text)
    requires ScanStops(cfg) && JsonParser.Decode(cfg, d).Failed?
    ensures Founded(cfg, d, JsonParser.Decode(cfg, d).fault)
  {
    if !(|d| > 2 && (d[0] == 0 || d[1] == 0)) {
      hide NextToken, Founded, ParseValue;
      match ParseValue(cfg, d, NextToken(cfg, d, 0), 0) {
        case Failed(_) => ValueFounded(cfg, d, 0, 0);
        case Done(_, q) => MissingFounded(cfg, d, TheEnd, q);
      }
    }
  }

  /** Some code point is spelled here. */
  ghost predicate SpelledAt(d: Text, p: nat)
  {
    exists cp: nat, n: nat :: Spelled(d, p, cp, n)
  }

  lemma {:induction false} FailsHere(d: Text, p: nat, acc: seq<Byte>)
    requires p < |d| && !Goes(d, p) && StringFrom(d, p, acc).token.Error?
    ensures var r := StringFrom(d, p, acc);
      && r.index == p
      && if d[p] == 0 then r.token == Error(UnexpectedEnd)
         else
           && d[p] == '\\' as int && p + 1 < |d|
           && if d[p + 1] == 'u' as int then r.token == Error(InvalidUnicode) && !SpelledAt(d, p)
              else r.token == Error(InvalidEscape) && !ValidChr(Short(d[p + 1]))
  {
    hide UnicodeEscape, Spelled;
    if d[p] != 0 && d[p + 1] == 'u' as int && SpelledAt(d, p) {
      var cp: nat, n: nat :| Spelled(d, p, cp, n);
      EscapeAccepts(d, p, cp, n);
    }
  }

  /** A string that is not one ends in the first place where no character of the grammar stands: at the end of the text,
      at a backslash with a letter that has no meaning, or at one with a u that spells no code point. */
  lemma {:induction false} StringFails(d: Text, p: nat, acc: seq<Byte>) returns (s: seq<Chr>)
    requires p < |d| && StringFrom(d, p, acc).token.Error?
    ensures ValidChars(s) && StartsWith(d, p, CharsText(s))
    ensures var r, q := StringFrom(d, p, acc), p + |CharsText(s)|;
      && r.index == q < |d|
      && if d[q] == 0 then r.token == Error(UnexpectedEnd)
         else
           && d[q] == '\\' as int && q + 1 < |d|
           && if d[q + 1] == 'u' as int then r.token == Error(InvalidUnicode) && !SpelledAt(d, q)
              else r.token == Error(InvalidEscape) && !ValidChr(Short(d[q + 1]))
    decreases |d| - p
  {
    hide *;
    if !Goes(d, p) {
      s := [];
      NoChars(acc);
      StartsNone(d, p);
      FailsHere(d, p, acc);
    } else {
      var c := ChrFound(d, p);
      ChrReads(d, p, c, acc);
      var rest := StringFails(d, p + |ChrText(c)|, acc + ChrBytes(c));
      s := [c] + rest;
      CharsCons(c, rest);
      StartsSplit(d, p, ChrText(c), CharsText(rest));
    }
  }
}
