/** JSON text as RFC 8259 defines it, character by character, and the Lua value a text stands for. */
module JsonText {
  import opened Bytes
  import opened Unicode
  import opened Json
  import opened JsonParser

  // ---- white space (section 2) ----

  predicate Blank(b: Byte)
  {
    b == 0x20 || b == 0x09 || b == 0x0A || b == 0x0D
  }

  predicate Blanks(s: seq<Byte>)
  {
    forall b | b in s :: Blank(b)
  }

  // ---- numbers (section 6) ----

  /** How many digits a text begins with. */
  function DigitRun(t: seq<Byte>): (r: nat)
    ensures r <= |t|
  {
    if t != [] && IsDigit(t[0]) then 1 + DigitRun(t[1..]) else 0
  }

  /** number = [ minus ] int [ frac ] [ exp ] */
  predicate IsNumber(t: seq<Byte>)
  {
    var u := if t != [] && t[0] == '-' as int then t[1..] else t;
    var n := DigitRun(u);
    n > 0 && (u[0] == '0' as int ==> n == 1) && IsFraction(u[n..])
  }

  predicate IsFraction(t: seq<Byte>)
  {
    if t != [] && t[0] == '.' as int then
      var n := DigitRun(t[1..]);
      n > 0 && IsExponent(t[n + 1..])
    else IsExponent(t)
  }

  predicate IsExponent(t: seq<Byte>)
  {
    t == []
    || ((t[0] == 'e' as int || t[0] == 'E' as int)
        && var digits := if |t| > 1 && (t[1] == '+' as int || t[1] == '-' as int) then t[2..] else t[1..];
           digits != [] && DigitRun(digits) == |digits|)
  }

  // ---- strings (section 7) ----

  /** A hexadecimal digit of either case. */
  datatype Hex = Hex(value: nat, upper: bool)

  predicate ValidHex(h: seq<Hex>)
  {
    |h| == 4 && h[0].value < 16 && h[1].value < 16 && h[2].value < 16 && h[3].value < 16
  }

  function HexByte(h: Hex): (r: Byte)
    requires h.value < 16
  {
    if h.upper then "0123456789ABCDEF"[h.value] as int else "0123456789abcdef"[h.value] as int
  }

  /** \uXXXX */
  function UnitText(h: seq<Hex>): (r: seq<Byte>)
    requires ValidHex(h)
    ensures |r| == 6
  {
    ['\\' as int, 'u' as int, HexByte(h[0]), HexByte(h[1]), HexByte(h[2]), HexByte(h[3])]
  }

  function UnitValue(h: seq<Hex>): (r: nat)
    requires ValidHex(h)
    ensures r < 0x10000
  {
    ((h[0].value * 16 + h[1].value) * 16 + h[2].value) * 16 + h[3].value
  }

  /** One character of a string: as it is, with a backslash and a letter, or as one or two UTF-16 units. */
  datatype Chr = Raw(byte: Byte) | Short(letter: Byte) | Unit(hex: seq<Hex>) | Surrogates(high: seq<Hex>, low: seq<Hex>)

  /** The decoder lets control characters stand as they are, which the standard does not. */
  predicate ValidChr(c: Chr)
  {
    match c
    case Raw(b) => b != 0 && b != '"' as int && b != '\\' as int
    case Short(l) =>
      || l == '"' as int || l == '\\' as int || l == '/' as int || l == 'b' as int || l == 'f' as int
      || l == 'n' as int || l == 'r' as int || l == 't' as int
    case Unit(h) => ValidHex(h) && !(0xD800 <= UnitValue(h) <= 0xDFFF)
    case Surrogates(h, l) =>
      ValidHex(h) && 0xD800 <= UnitValue(h) <= 0xDBFF && ValidHex(l) && 0xDC00 <= UnitValue(l) <= 0xDFFF
  }

  predicate ValidChars(s: seq<Chr>)
  {
    forall c | c in s :: ValidChr(c)
  }

  function ChrText(c: Chr): (r: seq<Byte>)
    requires ValidChr(c)
  {
    match c
    case Raw(b) => [b]
    case Short(l) => ['\\' as int, l]
    case Unit(h) => UnitText(h)
    case Surrogates(h, l) => UnitText(h) + UnitText(l)
  }

  function ChrBytes(c: Chr): (r: seq<Byte>)
    requires ValidChr(c)
  {
    match c
    case Raw(b) => [b]
    case Short(l) =>
      if l == 'b' as int then [0x08]
      else if l == 'f' as int then [0x0C]
      else if l == 'n' as int then [0x0A]
      else if l == 'r' as int then [0x0D]
      else if l == 't' as int then [0x09]
      else [l]
    case Unit(h) => Utf8(UnitValue(h))
    case Surrogates(h, l) => Utf8(0x10000 + (UnitValue(h) - 0xD800) * 0x400 + (UnitValue(l) - 0xDC00))
  }

  function CharsText(s: seq<Chr>): (r: seq<Byte>)
    requires ValidChars(s)
  {
    if s == [] then [] else CharsText(s[..|s| - 1]) + ChrText(s[|s| - 1])
  }

  function CharsBytes(s: seq<Chr>): (r: seq<Byte>)
    requires ValidChars(s)
  {
    if s == [] then [] else CharsBytes(s[..|s| - 1]) + ChrBytes(s[|s| - 1])
  }

  function StringText(s: seq<Chr>): (r: seq<Byte>)
    requires ValidChars(s)
  {
    ['"' as int] + CharsText(s) + ['"' as int]
  }

  // ---- values, arrays and objects (sections 3 to 5) ----

  datatype Tree =
    | NullWord
    | TrueWord
    | FalseWord
    | Numeral(literal: seq<Byte>)
    | Quotation(chars: seq<Chr>)
    | EmptyBrackets(blank: seq<Byte>)
    | Brackets(items: Items)
    | EmptyBraces(blank: seq<Byte>)
    | Braces(pairs: Pairs)

  /** The items of an array, with the white space around each. */
  datatype Items =
    | LastItem(before: seq<Byte>, tree: Tree, after: seq<Byte>)
    | MoreItems(before: seq<Byte>, tree: Tree, after: seq<Byte>, rest: Items)

  /** A name, and the white space around it. */
  datatype Name = Name(before: seq<Byte>, chars: seq<Chr>, after: seq<Byte>)

  datatype Pairs =
    | LastPair(name: Name, before: seq<Byte>, tree: Tree, after: seq<Byte>)
    | MorePairs(name: Name, before: seq<Byte>, tree: Tree, after: seq<Byte>, rest: Pairs)

  predicate ValidName(n: Name)
  {
    Blanks(n.before) && ValidChars(n.chars) && Blanks(n.after)
  }

  predicate Valid(t: Tree)
    decreases t
  {
    match t
    case Quotation(chars) => ValidChars(chars)
    case EmptyBrackets(blank) => Blanks(blank)
    case EmptyBraces(blank) => Blanks(blank)
    case Brackets(items) => ValidItems(items)
    case Braces(pairs) => ValidPairs(pairs)
    case _ => true
  }

  predicate ValidItems(i: Items)
    decreases i
  {
    Blanks(i.before) && Valid(i.tree) && Blanks(i.after) && (i.MoreItems? ==> ValidItems(i.rest))
  }

  predicate ValidPairs(p: Pairs)
    decreases p
  {
    && ValidName(p.name) && Blanks(p.before) && Valid(p.tree) && Blanks(p.after)
    && (p.MorePairs? ==> ValidPairs(p.rest))
  }

  function TreeText(t: Tree): (r: seq<Byte>)
    requires Valid(t)
    decreases t
  {
    match t
    case NullWord => ['n' as int, 'u' as int, 'l' as int, 'l' as int]
    case TrueWord => ['t' as int, 'r' as int, 'u' as int, 'e' as int]
    case FalseWord => ['f' as int, 'a' as int, 'l' as int, 's' as int, 'e' as int]
    case Numeral(literal) => literal
    case Quotation(chars) => StringText(chars)
    case EmptyBrackets(blank) => ['[' as int] + blank + [']' as int]
    case EmptyBraces(blank) => ['{' as int] + blank + ['}' as int]
    case Brackets(items) => ['[' as int] + ArrayText(items)
    case Braces(pairs) => ['{' as int] + ObjectText(pairs)
  }

  /** The items with their commas and the closing bracket. */
  function ArrayText(i: Items): (r: seq<Byte>)
    requires ValidItems(i)
    decreases i
  {
    i.before + TreeText(i.tree) + i.after + if i.LastItem? then [']' as int] else [',' as int] + ArrayText(i.rest)
  }

  function NameText(n: Name): (r: seq<Byte>)
    requires ValidName(n)
  {
    n.before + StringText(n.chars) + n.after + [':' as int]
  }

  /** The members with their commas and the closing brace. */
  function ObjectText(p: Pairs): (r: seq<Byte>)
    requires ValidPairs(p)
    decreases p
  {
    NameText(p.name)
    + (p.before + TreeText(p.tree) + p.after + if p.LastPair? then ['}' as int] else [',' as int] + ObjectText(p.rest))
  }

  /** The value: an empty array is the empty table, and of members with one name the last one counts. */
  function TreeValue(t: Tree): (r: Json)
    requires Valid(t)
    decreases t
  {
    match t
    case NullWord => Null
    case TrueWord => Bool(true)
    case FalseWord => Bool(false)
    case Numeral(literal) => Number(literal)
    case Quotation(chars) => String(CharsBytes(chars))
    case EmptyBrackets(_) => Object([])
    case EmptyBraces(_) => Object([])
    case Brackets(items) => Array(ItemsValue(items))
    case Braces(pairs) => Object(PairsValue(pairs, []))
  }

  function ItemsValue(i: Items): (r: seq<Json>)
    requires ValidItems(i)
    ensures r != []
    decreases i
  {
    [TreeValue(i.tree)] + if i.LastItem? then [] else ItemsValue(i.rest)
  }

  /** The members, stored one after the other on top of those there are. */
  function PairsValue(p: Pairs, members: seq<Member>): (r: seq<Member>)
    requires ValidPairs(p)
    decreases p
  {
    var stored := WithKey(members, CharsBytes(p.name.chars), TreeValue(p.tree));
    if p.LastPair? then stored else PairsValue(p.rest, stored)
  }

  /** The nesting of brackets and braces. */
  function Levels(t: Tree): (r: nat)
    decreases t
  {
    match t
    case EmptyBrackets(_) => 1
    case EmptyBraces(_) => 1
    case Brackets(items) => 1 + ItemsLevels(items)
    case Braces(pairs) => 1 + PairsLevels(pairs)
    case _ => 0
  }

  function ItemsLevels(i: Items): (r: nat)
    decreases i
  {
    var l := Levels(i.tree);
    if i.LastItem? || l > ItemsLevels(i.rest) then l else ItemsLevels(i.rest)
  }

  function PairsLevels(p: Pairs): (r: nat)
    decreases p
  {
    var l := Levels(p.tree);
    if p.LastPair? || l > PairsLevels(p.rest) then l else PairsLevels(p.rest)
  }

  /** Every number literal satisfies the predicate. */
  ghost predicate Numerals(t: Tree, ok: seq<Byte> -> bool)
    decreases t
  {
    match t
    case Numeral(literal) => ok(literal)
    case Brackets(items) => ItemsNumerals(items, ok)
    case Braces(pairs) => PairsNumerals(pairs, ok)
    case _ => true
  }

  ghost predicate ItemsNumerals(i: Items, ok: seq<Byte> -> bool)
    decreases i
  {
    Numerals(i.tree, ok) && (i.MoreItems? ==> ItemsNumerals(i.rest, ok))
  }

  ghost predicate PairsNumerals(p: Pairs, ok: seq<Byte> -> bool)
    decreases p
  {
    Numerals(p.tree, ok) && (p.MorePairs? ==> PairsNumerals(p.rest, ok))
  }
}
