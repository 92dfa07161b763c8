/** Lua values as JSON text: what json_append_data of lua_cjson.c writes. */
module Json {
  import opened Bytes
  import opened Unicode

  const QUOTE: Byte := '"' as int
  const SLASH: Byte := '/' as int
  const COMMA: Byte := ',' as int
  const COLON: Byte := ':' as int
  const ARR_BEGIN: Byte := '[' as int
  const ARR_END: Byte := ']' as int
  const OBJ_BEGIN: Byte := '{' as int
  const OBJ_END: Byte := '}' as int

  const TRUE_TEXT: seq<Byte> := ['t' as int, 'r' as int, 'u' as int, 'e' as int]
  const FALSE_TEXT: seq<Byte> := ['f' as int, 'a' as int, 'l' as int, 's' as int, 'e' as int]
  const NULL_TEXT: seq<Byte> := ['n' as int, 'u' as int, 'l' as int, 'l' as int]

  /** A Lua value: a number is kept as the text it is printed and read as; Null is nil or the null pointer userdata; a
      table is an Array (keys 1..n, n > 0) or else an Object whose members are in the order of traversal. */
  datatype Json =
    | Null
    | Bool(value: bool)
    | Number(literal: seq<Byte>)
    | String(bytes: seq<Byte>)
    | Array(items: seq<Json>)
    | Object(members: seq<Member>)

  datatype Member = Member(key: seq<Byte>, value: Json)

  /** What the settings and the platform's strtod decide: how many bytes of a text strtod takes for a number. */
  datatype Config = Config(
    encodeMaxDepth: nat, decodeMaxDepth: nat, decodeInvalidNumbers: bool, scan: seq<Byte> -> nat)

  // ---- strings ----

  /** char2escape, or the byte itself where that table has no entry. */
  function Escape(c: Byte): (r: seq<Byte>)
    ensures 1 <= |r| <= 6
    ensures forall b | b in r :: b != 0
  {
    if c == QUOTE || c == BACKSLASH || c == SLASH then [BACKSLASH, c]
    else if c == 8 then [BACKSLASH, 'b' as int]
    else if c == 9 then [BACKSLASH, 't' as int]
    else if c == 10 then [BACKSLASH, 'n' as int]
    else if c == 12 then [BACKSLASH, 'f' as int]
    else if c == 13 then [BACKSLASH, 'r' as int]
    else if c < 32 || c == 127 then [BACKSLASH, LETTER_U, '0' as int, '0' as int, HexChar(c / 16), HexChar(c % 16)]
    else [c]
  }

  predicate Plain(c: Byte)
  {
    c >= 32 && c != 127 && c != QUOTE && c != BACKSLASH && c != SLASH
  }

  function Escaped(s: seq<Byte>): (r: seq<Byte>)
    ensures |r| <= 6 * |s|
  {
    if s == [] then [] else Escaped(s[..|s| - 1]) + Escape(s[|s| - 1])
  }

  function Quoted(s: seq<Byte>): (r: seq<Byte>)
    ensures |r| <= 6 * |s| + 2
  {
    [QUOTE] + Escaped(s) + [QUOTE]
  }

  // ---- values ----

  /** The nesting of tables in a value. */
  function Depth(v: Json): (r: nat)
    decreases v, 0
  {
    match v
    case Array(items) => 1 + ItemsDepth(v, |items|)
    case Object(members) => 1 + MembersDepth(v, |members|)
    case _ => 0
  }

  function ItemsDepth(v: Json, n: nat): (r: nat)
    requires v.Array? && n <= |v.items|
    decreases v, 0, n
  {
    if n == 0 then 0
    else
      var d := Depth(v.items[n - 1]);
      var rest := ItemsDepth(v, n - 1);
      if d > rest then d else rest
  }

  function MembersDepth(v: Json, n: nat): (r: nat)
    requires v.Object? && n <= |v.members|
    decreases v, 0, n
  {
    if n == 0 then 0
    else
      var d := Depth(v.members[n - 1].value);
      var rest := MembersDepth(v, n - 1);
      if d > rest then d else rest
  }

  lemma {:induction false} ItemDepth(v: Json, n: nat, i: nat)
    requires v.Array? && i < n <= |v.items|
    ensures Depth(v.items[i]) <= ItemsDepth(v, n)
  {
    if i < n - 1 {
      ItemDepth(v, n - 1, i);
    }
  }

  lemma {:induction false} MemberDepth(v: Json, n: nat, i: nat)
    requires v.Object? && i < n <= |v.members|
    ensures Depth(v.members[i].value) <= MembersDepth(v, n)
  {
    if i < n - 1 {
      MemberDepth(v, n - 1, i);
    }
  }

  function Printed(v: Json): (r: seq<Byte>)
    decreases v, 0
  {
    match v
    case Null => NULL_TEXT
    case Bool(b) => if b then TRUE_TEXT else FALSE_TEXT
    case Number(literal) => literal
    case String(bytes) => Quoted(bytes)
    case Array(items) =>
      // a table without elements is written as an object
      if items == [] then [OBJ_BEGIN, OBJ_END] else [ARR_BEGIN] + ItemsText(v, |items|) + [ARR_END]
    case Object(members) => [OBJ_BEGIN] + MembersText(v, |members|) + [OBJ_END]
  }

  function Separator(first: bool): (r: seq<Byte>)
  {
    if first then [] else [COMMA]
  }

  /** The first n items with the commas between them. */
  function ItemsText(v: Json, n: nat): (r: seq<Byte>)
    requires v.Array? && n <= |v.items|
    decreases v, 0, n
  {
    if n == 0 then [] else ItemsText(v, n - 1) + Separator(n == 1) + Printed(v.items[n - 1])
  }

  lemma {:induction false} PrintedArray(v: Json)
    requires v.Array? && v.items != []
    ensures Printed(v) == [ARR_BEGIN] + ItemsText(v, |v.items|) + [ARR_END]
  {
  }

  function MembersText(v: Json, n: nat): (r: seq<Byte>)
    requires v.Object? && n <= |v.members|
    decreases v, 0, n
  {
    if n == 0 then []
    else
      MembersText(v, n - 1) + Separator(n == 1)
      + Quoted(v.members[n - 1].key) + [COLON] + Printed(v.members[n - 1].value)
  }

  // ---- what a Lua table can be ----

  predicate Distinct(members: seq<Member>)
  {
    forall i, j | 0 <= i < j < |members| :: members[i].key != members[j].key
  }

  /** Every value of Lua that can be encoded: the empty table is an Object, and a table has each key once. */
  predicate LuaValue(v: Json)
  {
    match v
    case Array(items) => items != [] && forall i | 0 <= i < |items| :: LuaValue(items[i])
    case Object(members) => Distinct(members) && forall i | 0 <= i < |members| :: LuaValue(members[i].value)
    case _ => true
  }

  /** Every number in the value satisfies the predicate. */
  ghost predicate Numbers(v: Json, p: seq<Byte> -> bool)
  {
    match v
    case Number(literal) => p(literal)
    case Array(items) => forall i | 0 <= i < |items| :: Numbers(items[i], p)
    case Object(members) => forall i | 0 <= i < |members| :: Numbers(members[i].value, p)
    case _ => true
  }
}
