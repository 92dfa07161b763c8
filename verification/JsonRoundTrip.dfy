/** decode(encode(v)) == v for every Lua value within the depth limit. */
module JsonRoundTrip {
  import opened Bytes
  import opened Unicode
  import opened Json
  import opened JsonLexer
  import opened JsonParser
  import opened JsonText
  import opened JsonReads

  // ---- strings ----

  /** How the encoder writes a byte: with a backslash and a letter where there is one, other control characters and
      delete as \u00XX, everything else as it is. */
  function ChrOf(c: Byte): (r: Chr)
  {
    if c == '"' as int || c == '\\' as int || c == '/' as int then Short(c)
    else if c == 0x08 then Short('b' as int)
    else if c == 0x0C then Short('f' as int)
    else if c == 0x0A then Short('n' as int)
    else if c == 0x0D then Short('r' as int)
    else if c == 0x09 then Short('t' as int)
    else if c < 0x20 || c == 0x7F then Unit([Hex(0, false), Hex(0, false), Hex(c / 16, false), Hex(c % 16, false)])
    else Raw(c)
  }

  /** The escape of a byte is a character of the grammar that stands for the byte. */
  lemma {:induction false} EscapeMeans(c: Byte)
    ensures ValidChr(ChrOf(c)) && Escape(c) == ChrText(ChrOf(c)) && ChrBytes(ChrOf(c)) == [c]
  {
    if ChrOf(c).Unit? {
      HexMeans(c);
      hide ChrText, ChrBytes;
    }
  }

  lemma {:induction false} HexMeans(c: Byte)
    requires c < 0x20 || c == 0x7F
    ensures var h := [Hex(0, false), Hex(0, false), Hex(c / 16, false), Hex(c % 16, false)];
      && ValidHex(h) && UnitValue(h) == c && Utf8(c) == [c]
      && UnitText(h) == ['\\' as int, 'u' as int, '0' as int, '0' as int, HexChar(c / 16), HexChar(c % 16)]
  {
    Alphabet(0);
    Alphabet(c / 16);
    Alphabet(c % 16);
  }

  function CharsOf(s: seq<Byte>): (r: seq<Chr>)
    ensures |r| == |s|
  {
    if s == [] then [] else CharsOf(s[..|s| - 1]) + [ChrOf(s[|s| - 1])]
  }

  lemma {:induction false} CharsMean(s: seq<Byte>)
    ensures ValidChars(CharsOf(s)) && CharsText(CharsOf(s)) == Escaped(s) && CharsBytes(CharsOf(s)) == s
  {
    hide ChrOf, ChrText, ChrBytes, Escape, ValidChr;
    if s != [] {
      CharsMean(s[..|s| - 1]);
      EscapeMeans(s[|s| - 1]);
      assert CharsOf(s)[..|s| - 1] == CharsOf(s[..|s| - 1]);
    }
  }

  /** json_append_string writes a string of the grammar that stands for the bytes. */
  lemma {:induction false} QuotedMeans(s: seq<Byte>)
    ensures ValidChars(CharsOf(s)) && StringText(CharsOf(s)) == Quoted(s) && CharsBytes(CharsOf(s)) == s
  {
    CharsMean(s);
    hide CharsText, CharsBytes, CharsOf, Escaped;
  }

  /** json_next_string_token undoes json_append_string on every byte string. */
  lemma {:induction false} StringReads(cfg: Config, d: Text, p: nat, s: seq<Byte>)
    requires ScanStops(cfg) && StartsWith(d, p, Quoted(s)) && p + |Quoted(s)| < |d|
    ensures NextToken(cfg, d, p) == Lexed(StringToken(s), p, p + |Quoted(s)|)
  {
    hide *;
    QuotedMeans(s);
    StringTextReads(cfg, d, p, CharsOf(s));
  }

  // ---- the text of a value as a text of the grammar ----

  function TreeOf(v: Json): (t: Tree)
    decreases v, 1
  {
    match v
    case Null => NullWord
    case Bool(b) => if b then TrueWord else FalseWord
    case Number(literal) => Numeral(literal)
    case String(bytes) => Quotation(CharsOf(bytes))
    case Array(items) => if items == [] then EmptyBraces([]) else Brackets(ItemsFrom(v, 0))
    case Object(members) => if members == [] then EmptyBraces([]) else Braces(PairsFrom(v, 0))
  }

  /** The items from the n-th on. */
  function ItemsFrom(v: Json, n: nat): (i: Items)
    requires v.Array? && n < |v.items|
    decreases v, 0, |v.items| - n
  {
    if n + 1 == |v.items| then LastItem([], TreeOf(v.items[n]), [])
    else MoreItems([], TreeOf(v.items[n]), [], ItemsFrom(v, n + 1))
  }

  function PairsFrom(v: Json, n: nat): (p: Pairs)
    requires v.Object? && n < |v.members|
    decreases v, 0, |v.members| - n
  {
    var name := Name([], CharsOf(v.members[n].key), []);
    if n + 1 == |v.members| then LastPair(name, [], TreeOf(v.members[n].value), [])
    else MorePairs(name, [], TreeOf(v.members[n].value), [], PairsFrom(v, n + 1))
  }

  /** What stands before item n inside the brackets. */
  function BeforeItem(v: Json, n: nat): (r: seq<Byte>)
    requires v.Array? && n < |v.items|
  {
    ItemsText(v, n) + Separator(n == 0)
  }

  function BeforeMember(v: Json, n: nat): (r: seq<Byte>)
    requires v.Object? && n < |v.members|
  {
    MembersText(v, n) + Separator(n == 0)
  }

  /** What json_append_data writes is a text of the grammar. */
  lemma {:induction false} PrintedText(v: Json)
    ensures Valid(TreeOf(v)) && TreeText(TreeOf(v)) == Printed(v)
    decreases v, 1
  {
    hide *;
    match v
    case String(bytes) =>
      QuotedMeans(bytes);
      StringPrinted(v);
    case Array(items) =>
      if items == [] {
        EmptyPrinted(v);
      } else {
        ItemsPrinted(v, 0);
        BracketsPrinted(v);
      }
    case Object(members) =>
      if members == [] {
        EmptyPrinted(v);
      } else {
        PairsPrinted(v, 0);
        BracesPrinted(v);
      }
    case _ => WordPrinted(v);
  }

  lemma {:induction false} WordPrinted(v: Json)
    requires v.Null? || v.Bool? || v.Number?
    ensures Valid(TreeOf(v)) && TreeText(TreeOf(v)) == Printed(v)
  {
  }

  lemma {:induction false} StringPrinted(v: Json)
    requires v.String? && ValidChars(CharsOf(v.bytes)) && StringText(CharsOf(v.bytes)) == Quoted(v.bytes)
    ensures Valid(TreeOf(v)) && TreeText(TreeOf(v)) == Printed(v)
  {
    hide CharsOf, StringText, Quoted, ValidChars;
  }

  lemma {:induction false} EmptyPrinted(v: Json)
    requires v == Array([]) || v == Object([])
    ensures Valid(TreeOf(v)) && TreeText(TreeOf(v)) == Printed(v)
  {
    assert Printed(v) == ['{' as int, '}' as int];
  }

  lemma {:induction false} BracketsText(i: Items)
    requires ValidItems(i)
    ensures Valid(Brackets(i)) && TreeText(Brackets(i)) == [ARR_BEGIN] + ArrayText(i)
  {
    hide ValidItems, ArrayText;
  }

  lemma {:induction false} BracesText(m: Pairs)
    requires ValidPairs(m)
    ensures Valid(Braces(m)) && TreeText(Braces(m)) == [OBJ_BEGIN] + ObjectText(m)
  {
    hide ValidPairs, ObjectText;
  }

  lemma {:induction false} PrintedTable(v: Json)
    requires (v.Array? && v.items != []) || (v.Object? && v.members != [])
    ensures v.Array? ==>
      && TreeOf(v) == Brackets(ItemsFrom(v, 0)) && BeforeItem(v, 0) == []
      && Printed(v) == [ARR_BEGIN] + ItemsText(v, |v.items|) + [ARR_END]
    ensures v.Object? ==>
      && TreeOf(v) == Braces(PairsFrom(v, 0)) && BeforeMember(v, 0) == []
      && Printed(v) == [OBJ_BEGIN] + MembersText(v, |v.members|) + [OBJ_END]
  {
    hide ItemsFrom, PairsFrom;
    assert v.Array? ==> ItemsText(v, 0) == [];
    assert v.Object? ==> MembersText(v, 0) == [];
    hide ItemsText, MembersText;
  }

  lemma {:induction false} Framed(a: Byte, before: seq<Byte>, mid: seq<Byte>, inner: seq<Byte>, b: Byte)
    requires before == [] && before + mid == inner + [b]
    ensures [a] + mid == [a] + inner + [b]
  {
    assert before + mid == mid;
  }

  lemma {:induction false} BracketsPrinted(v: Json)
    requires v.Array? && v.items != [] && ValidItems(ItemsFrom(v, 0))
    requires BeforeItem(v, 0) + ArrayText(ItemsFrom(v, 0)) == ItemsText(v, |v.items|) + [ARR_END]
    ensures Valid(TreeOf(v)) && TreeText(TreeOf(v)) == Printed(v)
  {
    hide *;
    PrintedTable(v);
    BracketsText(ItemsFrom(v, 0));
    Framed(ARR_BEGIN, BeforeItem(v, 0), ArrayText(ItemsFrom(v, 0)), ItemsText(v, |v.items|), ARR_END);
  }

  lemma {:induction false} BracesPrinted(v: Json)
    requires v.Object? && v.members != [] && ValidPairs(PairsFrom(v, 0))
    requires BeforeMember(v, 0) + ObjectText(PairsFrom(v, 0)) == MembersText(v, |v.members|) + [OBJ_END]
    ensures Valid(TreeOf(v)) && TreeText(TreeOf(v)) == Printed(v)
  {
    hide *;
    PrintedTable(v);
    BracesText(PairsFrom(v, 0));
    Framed(OBJ_BEGIN, BeforeMember(v, 0), ObjectText(PairsFrom(v, 0)), MembersText(v, |v.members|), OBJ_END);
  }

  lemma {:induction false} NextItem(v: Json, n: nat)
    requires v.Array? && n < |v.items|
    ensures n + 1 == |v.items| ==> ItemsText(v, n + 1) == BeforeItem(v, n) + Printed(v.items[n])
    ensures n + 1 < |v.items| ==> BeforeItem(v, n + 1) == BeforeItem(v, n) + (Printed(v.items[n]) + [COMMA])
  {
    hide Printed;
  }

  lemma {:induction false} ItemsPrinted(v: Json, n: nat)
    requires v.Array? && n < |v.items|
    ensures ValidItems(ItemsFrom(v, n))
    ensures BeforeItem(v, n) + ArrayText(ItemsFrom(v, n)) == ItemsText(v, |v.items|) + [ARR_END]
    decreases v, 0, |v.items| - n
  {
    hide Printed, TreeText, TreeOf, BeforeItem, ItemsText;
    PrintedText(v.items[n]);
    NextItem(v, n);
    var i, before, text := ItemsFrom(v, n), BeforeItem(v, n), Printed(v.items[n]);
    if n + 1 < |v.items| {
      ItemsPrinted(v, n + 1);
      assert ArrayText(i) == text + [COMMA] + ArrayText(i.rest);
      Regroup(before, text + [COMMA], ArrayText(i.rest));
    } else {
      assert ArrayText(i) == text + [ARR_END];
      Regroup(before, text, [ARR_END]);
    }
  }

  lemma {:induction false} NextMember(v: Json, n: nat)
    requires v.Object? && n < |v.members|
    ensures var text := Quoted(v.members[n].key) + [COLON] + Printed(v.members[n].value);
      && (n + 1 == |v.members| ==> MembersText(v, n + 1) == BeforeMember(v, n) + text)
      && (n + 1 < |v.members| ==> BeforeMember(v, n + 1) == BeforeMember(v, n) + (text + [COMMA]))
  {
    hide Printed, Quoted;
    var a, b, c := BeforeMember(v, n), Quoted(v.members[n].key), Printed(v.members[n].value);
    assert a + b + [COLON] + c == a + (b + [COLON] + c);
  }

  /** The members from the n-th on: name, colon and value, and what comes behind them. */
  lemma {:induction false} PairText(v: Json, n: nat)
    requires v.Object? && n < |v.members| && Valid(TreeOf(v.members[n].value))
    requires TreeText(TreeOf(v.members[n].value)) == Printed(v.members[n].value)
    ensures
      && var m := PairsFrom(v, n);
      && var text := Quoted(v.members[n].key) + [COLON] + Printed(v.members[n].value);
      && if n + 1 == |v.members| then ValidPairs(m) && ObjectText(m) == text + [OBJ_END]
         else
           && m == MorePairs(m.name, m.before, m.tree, m.after, PairsFrom(v, n + 1))
           && (ValidPairs(m.rest) ==> ValidPairs(m) && ObjectText(m) == text + [COMMA] + ObjectText(m.rest))
  {
    hide Printed, TreeText, TreeOf, Quoted, StringText, CharsOf, ValidChars, NameText;
    QuotedMeans(v.members[n].key);
    var m, key, value := PairsFrom(v, n), Quoted(v.members[n].key), Printed(v.members[n].value);
    NameIs(m.name, key);
    if n + 1 == |v.members| {
      Unpadded(key + [COLON], value, [OBJ_END]);
    } else if ValidPairs(m.rest) {
      Unpadded(key + [COLON], value, [COMMA] + ObjectText(m.rest));
      Regroup(key + [COLON] + value, [COMMA], ObjectText(m.rest));
    }
  }

  lemma {:induction false} NameIs(n: Name, key: seq<Byte>)
    requires n.before == [] && n.after == [] && ValidChars(n.chars) && StringText(n.chars) == key
    ensures ValidName(n) && NameText(n) == key + [COLON]
  {
    hide StringText;
    assert [] + key + [] + [COLON] == key + [COLON];
  }

  lemma {:induction false} Unpadded(a: seq<Byte>, b: seq<Byte>, c: seq<Byte>)
    ensures a + ([] + b + [] + c) == a + b + c
  {
    assert [] + b + [] == b;
  }

  lemma {:induction false} PairsPrinted(v: Json, n: nat)
    requires v.Object? && n < |v.members|
    ensures ValidPairs(PairsFrom(v, n))
    ensures BeforeMember(v, n) + ObjectText(PairsFrom(v, n)) == MembersText(v, |v.members|) + [OBJ_END]
    decreases v, 0, |v.members| - n
  {
    hide *;
    PrintedText(v.members[n].value);
    NextMember(v, n);
    PairText(v, n);
    var before := BeforeMember(v, n);
    var text := Quoted(v.members[n].key) + [COLON] + Printed(v.members[n].value);
    if n + 1 < |v.members| {
      PairsPrinted(v, n + 1);
      Regroup(before, text + [COMMA], ObjectText(PairsFrom(v, n + 1)));
    } else {
      Regroup(before, text, [OBJ_END]);
    }
  }

  // ---- it stands for the value ----

  lemma {:induction false} TreeMeans(v: Json)
    requires LuaValue(v) && Valid(TreeOf(v))
    ensures TreeValue(TreeOf(v)) == v
    decreases v, 1
  {
    hide CharsOf, CharsBytes, ValidChars, ItemsValue, PairsValue;
    match v
    case String(bytes) => QuotedMeans(bytes);
    case Array(items) => ItemsMean(v, 0);
    case Object(members) =>
      if members != [] {
        PairsMean(v, 0);
      }
    case _ =>
  }

  lemma {:induction false} ItemsMean(v: Json, n: nat)
    requires LuaValue(v) && v.Array? && n < |v.items| && ValidItems(ItemsFrom(v, n))
    ensures ItemsValue(ItemsFrom(v, n)) == v.items[n..]
    decreases v, 0, |v.items| - n
  {
    hide TreeOf, TreeValue;
    TreeMeans(v.items[n]);
    if n + 1 < |v.items| {
      ItemsMean(v, n + 1);
    }
  }

  lemma {:induction false} NewMember(v: Json, n: nat)
    requires LuaValue(v) && v.Object? && n < |v.members|
    ensures LuaValue(v.members[n].value)
    ensures WithKey(v.members[..n], v.members[n].key, v.members[n].value) == v.members[..n + 1]
  {
    hide WithKey;
    WithNewKey(v.members[..n], v.members[n].key, v.members[n].value);
    assert v.members[..n] + [v.members[n]] == v.members[..n + 1];
  }

  lemma {:induction false} PairsMean(v: Json, n: nat)
    requires LuaValue(v) && v.Object? && n < |v.members| && ValidPairs(PairsFrom(v, n))
    ensures PairsValue(PairsFrom(v, n), v.members[..n]) == v.members
    decreases v, 0, |v.members| - n
  {
    hide TreeOf, TreeValue, WithKey, CharsOf, CharsBytes, ValidChars, LuaValue, Valid;
    var m := v.members[n];
    QuotedMeans(m.key);
    NewMember(v, n);
    TreeMeans(m.value);
    if n + 1 < |v.members| {
      PairsMean(v, n + 1);
    } else {
      assert v.members[..n + 1] == v.members;
    }
  }

  lemma {:induction false} TreeLevels(v: Json)
    ensures Levels(TreeOf(v)) <= Depth(v)
    decreases v, 1
  {
    hide CharsOf, ItemsDepth, MembersDepth, ItemsLevels, PairsLevels;
    match v
    case Array(items) =>
      if items != [] {
        ItemsDeep(v, 0);
      }
    case Object(members) =>
      if members != [] {
        PairsDeep(v, 0);
      }
    case _ =>
  }

  lemma {:induction false} ItemsDeep(v: Json, n: nat)
    requires v.Array? && n < |v.items|
    ensures ItemsLevels(ItemsFrom(v, n)) <= ItemsDepth(v, |v.items|)
    decreases v, 0, |v.items| - n
  {
    hide TreeOf, Depth, Levels;
    TreeLevels(v.items[n]);
    ItemDepth(v, |v.items|, n);
    if n + 1 < |v.items| {
      ItemsDeep(v, n + 1);
    }
  }

  lemma {:induction false} PairsDeep(v: Json, n: nat)
    requires v.Object? && n < |v.members|
    ensures PairsLevels(PairsFrom(v, n)) <= MembersDepth(v, |v.members|)
    decreases v, 0, |v.members| - n
  {
    hide TreeOf, Depth, Levels, CharsOf;
    TreeLevels(v.members[n].value);
    MemberDepth(v, |v.members|, n);
    if n + 1 < |v.members| {
      PairsDeep(v, n + 1);
    }
  }

  lemma {:induction false} TreeNumerals(v: Json, ok: seq<Byte> -> bool)
    requires Numbers(v, ok)
    ensures Numerals(TreeOf(v), ok)
    decreases v, 1
  {
    hide CharsOf, ItemsNumerals, PairsNumerals;
    match v
    case Array(items) =>
      if items != [] {
        ItemsNumber(v, 0, ok);
      }
    case Object(members) =>
      if members != [] {
        PairsNumber(v, 0, ok);
      }
    case _ =>
  }

  lemma {:induction false} ItemsNumber(v: Json, n: nat, ok: seq<Byte> -> bool)
    requires v.Array? && n < |v.items| && Numbers(v, ok)
    ensures ItemsNumerals(ItemsFrom(v, n), ok)
    decreases v, 0, |v.items| - n
  {
    hide TreeOf, Numerals;
    TreeNumerals(v.items[n], ok);
    if n + 1 < |v.items| {
      ItemsNumber(v, n + 1, ok);
    }
  }

  lemma {:induction false} PairsNumber(v: Json, n: nat, ok: seq<Byte> -> bool)
    requires v.Object? && n < |v.members| && Numbers(v, ok)
    ensures PairsNumerals(PairsFrom(v, n), ok)
    decreases v, 0, |v.members| - n
  {
    hide TreeOf, Numerals, CharsOf;
    TreeNumerals(v.members[n].value, ok);
    if n + 1 < |v.members| {
      PairsNumber(v, n + 1, ok);
    }
  }

  // ---- the round trip ----

  ghost predicate NumbersNoZero(v: Json)
  {
    Numbers(v, literal => NoZero(literal))
  }

  /** Encoded text has no zero byte, so it is a C string of its whole length. */
  lemma {:induction false} PrintedNoZero(v: Json)
    requires NumbersNoZero(v)
    ensures NoZero(Printed(v))
  {
    hide TreeOf, TreeText, Printed, Numbers, Numerals;
    PrintedText(v);
    TreeNumerals(v, literal => NoZero(literal));
    TreeNoZero(TreeOf(v), literal => NoZero(literal));
  }

  /** A value the decoder can rebuild: every table fits the limit and every number is read as printed. */
  ghost predicate Decodable(cfg: Config, v: Json)
  {
    && LuaValue(v) && Depth(v) <= cfg.decodeMaxDepth
    && Numbers(v, literal => ReadsBack(cfg, literal))
  }

  /** Decoding what was encoded gives the value back. */
  lemma {:induction false} RoundTrip(cfg: Config, v: Json)
    requires ScanStops(cfg) && Decodable(cfg, v)
    ensures JsonParser.Decode(cfg, Printed(v) + [0]) == Done(v, |Printed(v)|)
  {
    hide TreeOf, TreeText, TreeValue, Printed, Numbers, Numerals, JsonParser.Decode, Depth, Levels, LuaValue;
    PrintedText(v);
    TreeMeans(v);
    TreeLevels(v);
    TreeNumerals(v, literal => ReadsBack(cfg, literal));
    TextDecodes(cfg, [], TreeOf(v), []);
    assert [] + Printed(v) + [] + [0] == Printed(v) + [0];
  }
}
