/** The encoder of lua_cjson.c as it runs: it appends to a strbuf, counting on the room it reserved. */
module JsonEncoder {
  import opened Bytes
  import opened Options
  import opened Strbufs
  import opened Json

  /** FPCONV_G_FMT_BUFSIZE: a printed number and its terminator. */
  const NUMBER_ROOM: nat := 32

  /** The encoder reports an error, through luaL_error, exactly when tables nest too deep. */
  predicate Encodable(cfg: Config, v: Json, depth: nat)
  {
    Depth(v) == 0 || depth + Depth(v) <= cfg.encodeMaxDepth
  }

  ghost predicate NumbersShort(v: Json)
  {
    Numbers(v, literal => |literal| < NUMBER_ROOM)
  }

  /** base followed by an opening byte and mid. */
  ghost predicate Wrote(now: seq<Byte>, base: seq<Byte>, open: Byte, mid: seq<Byte>)
  {
    now == base + [open] + mid
  }

  lemma {:induction false} WroteOpen(base: seq<Byte>, open: Byte)
    ensures Wrote(base + [open], base, open, [])
  {
  }

  lemma {:induction false} WroteMore(now: seq<Byte>, base: seq<Byte>, open: Byte, mid: seq<Byte>, more: seq<Byte>)
    requires Wrote(now, base, open, mid)
    ensures Wrote(now + more, base, open, mid + more)
  {
  }

  lemma {:induction false} WroteClose(now: seq<Byte>, base: seq<Byte>, open: Byte, mid: seq<Byte>, close: Byte)
    requires Wrote(now, base, open, mid)
    ensures now + [close] == base + ([open] + mid + [close])
  {
  }

  lemma {:induction false} EscapedStep(str: seq<Byte>, i: nat)
    requires i < |str|
    ensures Escaped(str[..i + 1]) == Escaped(str[..i]) + Escape(str[i])
  {
    assert str[..i + 1][..i] == str[..i];
  }

  /** json_append_string: one reservation of 6*len + 2 bytes, then nothing reallocates. */
  method AppendJsonString(json: Strbuf, str: seq<Byte>)
    requires json.Valid()
    modifies json, json.buf
    ensures json.Valid() && json.Contents() == old(json.Contents()) + Quoted(str)
    ensures json.buf == old(json.buf) || fresh(json.buf)
    ensures json.reallocs <= old(json.reallocs) + 1
  {
    hide Escape, Escaped, Wrote, Quoted, Plain;
    ghost var base := json.Contents();
    json.EnsureEmptyLength(|str| * 6 + 2);
    ghost var reserved, reallocs := json.buf, json.reallocs;
    json.AppendCharUnsafe(QUOTE);
    WroteOpen(base, QUOTE);
    var i := 0;
    assert Escaped(str[..0]) == [] by {
      EscapedNone(str);
    }
    while i < |str|
      invariant 0 <= i <= |str|
      invariant json.Valid() && json.buf == reserved && json.reallocs == reallocs
      invariant json.EmptyLength() >= (|str| - i) * 6 + 1
      invariant Wrote(json.Contents(), base, QUOTE, Escaped(str[..i]))
    {
      WroteMore(json.Contents(), base, QUOTE, Escaped(str[..i]), Escape(str[i]));
      EscapedStep(str, i);
      if Plain(str[i]) {
        PlainEscape(str[i]);
        json.AppendCharUnsafe(str[i]);
      } else {
        json.AppendString(Escape(str[i]));
      }
      i := i + 1;
    }
    assert str[..i] == str;
    WroteClose(json.Contents(), base, QUOTE, Escaped(str), QUOTE);
    json.AppendCharUnsafe(QUOTE);
    QuotedIs(str);
  }

  lemma {:induction false} EscapedNone(str: seq<Byte>)
    ensures Escaped(str[..0]) == []
  {
  }

  lemma {:induction false} QuotedIs(str: seq<Byte>)
    ensures Quoted(str) == [QUOTE] + Escaped(str) + [QUOTE]
  {
  }

  lemma {:induction false} PlainEscape(c: Byte)
    requires Plain(c)
    ensures Escape(c) == [c]
  {
  }

  /** json_append_number, with the text fpconv_g_fmt prints. */
  method AppendNumber(json: Strbuf, literal: seq<Byte>)
    requires json.Valid() && |literal| < NUMBER_ROOM
    modifies json, json.buf
    ensures json.Valid() && json.Contents() == old(json.Contents()) + literal
    ensures json.buf == old(json.buf) || fresh(json.buf)
  {
    json.EnsureEmptyLength(NUMBER_ROOM);
    json.AppendMemUnsafe(literal);
  }

  /** One turn of the loop in json_append_array: the comma and the item. */
  method AppendItem(cfg: Config, v: Json, i: nat, depth: nat, json: Strbuf) returns (ok: bool)
    requires json.Valid() && v.Array? && NumbersShort(v) && i < |v.items|
    modifies json, json.buf
    ensures json.Valid() && (json.buf == old(json.buf) || fresh(json.buf))
    ensures ok <==> Encodable(cfg, v.items[i], depth)
    ensures ok ==> json.Contents() == old(json.Contents()) + ItemPart(v, i)
    decreases v, 0
  {
    hide Printed, Encodable;
    if i > 0 {
      json.AppendChar(COMMA);
    }
    ok := AppendData(cfg, v.items[i], depth, json);
    if ok {
      ItemParts(old(json.Contents()), v, i);
    }
  }

  ghost function ItemPart(v: Json, i: nat): (r: seq<Byte>)
    requires v.Array? && i < |v.items|
  {
    Separator(i == 0) + Printed(v.items[i])
  }

  lemma {:induction false} ItemParts(base: seq<Byte>, v: Json, i: nat)
    requires v.Array? && i < |v.items|
    ensures base + Separator(i == 0) + Printed(v.items[i]) == base + ItemPart(v, i)
    ensures i > 0 ==> base + [COMMA] + Printed(v.items[i]) == base + ItemPart(v, i)
  {
  }

  lemma {:induction false} NextItem(v: Json, i: nat)
    requires v.Array? && i < |v.items|
    ensures ItemsText(v, i + 1) == ItemsText(v, i) + ItemPart(v, i)
    ensures ItemsDepth(v, i + 1)
      == if Depth(v.items[i]) > ItemsDepth(v, i) then Depth(v.items[i]) else ItemsDepth(v, i)
    ensures Depth(v.items[i]) <= ItemsDepth(v, |v.items|)
  {
    ItemDepth(v, |v.items|, i);
    hide Printed;
  }

  lemma {:induction false} NoItems(v: Json)
    requires v.Array?
    ensures ItemsText(v, 0) == [] && ItemsDepth(v, 0) == 0
  {
  }

  /** json_append_array: false when an item was too deep. */
  method AppendArray(cfg: Config, v: Json, depth: nat, json: Strbuf) returns (ok: bool)
    requires json.Valid() && v.Array? && v.items != [] && NumbersShort(v) && depth <= cfg.encodeMaxDepth
    modifies json, json.buf
    ensures json.Valid() && (json.buf == old(json.buf) || fresh(json.buf))
    ensures ok <==> depth + ItemsDepth(v, |v.items|) <= cfg.encodeMaxDepth
    ensures ok ==> json.Contents() == old(json.Contents()) + Printed(v)
    decreases v, 1
  {
    hide Printed, Depth, Wrote, ItemPart, ItemsText, ItemsDepth, NumbersShort, Encodable;
    ghost var base := json.Contents();
    json.AppendChar(ARR_BEGIN);
    WroteOpen(base, ARR_BEGIN);
    NoItems(v);
    var i := 0;
    while i < |v.items|
      invariant 0 <= i <= |v.items|
      invariant json.Valid() && (json.buf == old(json.buf) || fresh(json.buf))
      invariant depth + ItemsDepth(v, i) <= cfg.encodeMaxDepth
      invariant Wrote(json.Contents(), base, ARR_BEGIN, ItemsText(v, i))
    {
      NextItem(v, i);
      WroteMore(json.Contents(), base, ARR_BEGIN, ItemsText(v, i), ItemPart(v, i));
      var item := AppendItem(cfg, v, i, depth, json);
      if !item {
        TooDeep(cfg, v.items[i], depth);
        return false;
      }
      DeepEnough(cfg, v.items[i], depth);
      i := i + 1;
    }
    WroteClose(json.Contents(), base, ARR_BEGIN, ItemsText(v, |v.items|), ARR_END);
    json.AppendChar(ARR_END);
    PrintedArray(v);
    return true;
  }

  /** The members of a table that is not an array; none for a table without elements. */
  function MembersOf(v: Json): (r: seq<Member>)
  {
    if v.Object? then v.members else []
  }

  ghost function MemberPart(m: Member, first: bool): (r: seq<Byte>)
  {
    Separator(first) + Quoted(m.key) + [COLON] + Printed(m.value)
  }

  ghost function TextTo(v: Json, n: nat): (r: seq<Byte>)
    requires n <= |MembersOf(v)|
  {
    if v.Object? then MembersText(v, n) else []
  }

  ghost function DepthTo(v: Json, n: nat): (r: nat)
    requires n <= |MembersOf(v)|
  {
    if v.Object? then MembersDepth(v, n) else 0
  }

  lemma {:induction false} NextMember(v: Json, n: nat)
    requires n < |MembersOf(v)|
    ensures var m := MembersOf(v)[n];
      && TextTo(v, n + 1) == TextTo(v, n) + MemberPart(m, n == 0)
      && DepthTo(v, n + 1) == (if Depth(m.value) > DepthTo(v, n) then Depth(m.value) else DepthTo(v, n))
      && Depth(m.value) <= DepthTo(v, |MembersOf(v)|)
  {
    MemberDepth(v, |v.members|, n);
    hide Quoted, Printed;
  }

  lemma {:induction false} NoMember(v: Json)
    ensures TextTo(v, 0) == [] && DepthTo(v, 0) == 0
  {
  }

  lemma {:induction false} MemberShort(v: Json, n: nat)
    requires NumbersShort(v) && n < |MembersOf(v)|
    ensures NumbersShort(MembersOf(v)[n].value)
  {
  }

  lemma {:induction false} PrintedMembers(v: Json)
    requires v.Object? || (v.Array? && v.items == [])
    ensures Printed(v) == [OBJ_BEGIN] + TextTo(v, |MembersOf(v)|) + [OBJ_END]
  {
  }

  lemma {:induction false} TableDepth(v: Json)
    requires v.Object? || (v.Array? && v.items == [])
    ensures Depth(v) == 1 + DepthTo(v, |MembersOf(v)|)
  {
  }

  /** One turn of the loop in json_append_object: comma, key, colon and value. */
  method AppendMember(cfg: Config, v: Json, i: nat, depth: nat, json: Strbuf) returns (ok: bool)
    requires json.Valid() && NumbersShort(v) && i < |MembersOf(v)|
    modifies json, json.buf
    ensures json.Valid() && (json.buf == old(json.buf) || fresh(json.buf))
    ensures ok <==> Encodable(cfg, MembersOf(v)[i].value, depth)
    ensures ok ==> json.Contents() == old(json.Contents()) + MemberPart(MembersOf(v)[i], i == 0)
    decreases v, 0
  {
    hide Quoted, Printed, Encodable, NumbersShort, MemberPart, Separator;
    var m := MembersOf(v)[i];
    MemberShort(v, i);
    AppendKey(json, m.key, i == 0);
    ok := AppendData(cfg, m.value, depth, json);
    if ok {
      MemberParts(old(json.Contents()), m, i == 0);
    }
  }

  /** The comma between members, the key and the colon. */
  method AppendKey(json: Strbuf, key: seq<Byte>, first: bool)
    requires json.Valid()
    modifies json, json.buf
    ensures json.Valid() && (json.buf == old(json.buf) || fresh(json.buf))
    ensures json.Contents() == old(json.Contents()) + (Separator(first) + Quoted(key) + [COLON])
  {
    hide Quoted;
    if !first {
      json.AppendChar(COMMA);
    }
    assert json.Contents() == old(json.Contents()) + Separator(first);
    AppendJsonString(json, key);
    json.AppendChar(COLON);
  }

  lemma {:induction false} MemberParts(base: seq<Byte>, m: Member, first: bool)
    ensures base + (Separator(first) + Quoted(m.key) + [COLON]) + Printed(m.value) == base + MemberPart(m, first)
  {
  }

  /** json_append_object for string keys; v is an object or a table without elements. */
  method AppendObject(cfg: Config, v: Json, depth: nat, json: Strbuf) returns (ok: bool)
    requires json.Valid() && NumbersShort(v) && depth <= cfg.encodeMaxDepth
    requires v.Object? || (v.Array? && v.items == [])
    modifies json, json.buf
    ensures json.Valid() && (json.buf == old(json.buf) || fresh(json.buf))
    ensures ok <==> depth + DepthTo(v, |MembersOf(v)|) <= cfg.encodeMaxDepth
    ensures ok ==> json.Contents() == old(json.Contents()) + Printed(v)
    decreases v, 1
  {
    hide Printed, Depth, MemberPart, Wrote, TextTo, DepthTo, NumbersShort, Encodable;
    ghost var base := json.Contents();
    json.AppendChar(OBJ_BEGIN);
    WroteOpen(base, OBJ_BEGIN);
    NoMember(v);
    var members := MembersOf(v);
    var i := 0;
    while i < |members|
      invariant 0 <= i <= |members|
      invariant json.Valid() && (json.buf == old(json.buf) || fresh(json.buf))
      invariant depth + DepthTo(v, i) <= cfg.encodeMaxDepth
      invariant Wrote(json.Contents(), base, OBJ_BEGIN, TextTo(v, i))
    {
      NextMember(v, i);
      WroteMore(json.Contents(), base, OBJ_BEGIN, TextTo(v, i), MemberPart(members[i], i == 0));
      var value := AppendMember(cfg, v, i, depth, json);
      if !value {
        TooDeep(cfg, members[i].value, depth);
        return false;
      }
      DeepEnough(cfg, members[i].value, depth);
      i := i + 1;
    }
    WroteClose(json.Contents(), base, OBJ_BEGIN, TextTo(v, |members|), OBJ_END);
    json.AppendChar(OBJ_END);
    PrintedMembers(v);
    return true;
  }

  lemma {:induction false} TooDeep(cfg: Config, v: Json, depth: nat)
    requires !Encodable(cfg, v, depth)
    ensures depth + Depth(v) > cfg.encodeMaxDepth
  {
  }

  lemma {:induction false} DeepEnough(cfg: Config, v: Json, depth: nat)
    requires Encodable(cfg, v, depth) && depth <= cfg.encodeMaxDepth
    ensures depth + Depth(v) <= cfg.encodeMaxDepth
  {
  }

  /** json_append_data: the value's text is appended, unless its tables nest too deep. */
  method AppendData(cfg: Config, v: Json, depth: nat, json: Strbuf) returns (ok: bool)
    requires json.Valid() && NumbersShort(v)
    modifies json, json.buf
    ensures json.Valid() && (json.buf == old(json.buf) || fresh(json.buf))
    ensures ok <==> Encodable(cfg, v, depth)
    ensures ok ==> json.Contents() == old(json.Contents()) + Printed(v)
    decreases v, 2
  {
    match v {
      case String(bytes) =>
        AppendJsonString(json, bytes);
        return true;
      case Number(literal) =>
        AppendNumber(json, literal);
        return true;
      case Bool(b) =>
        if b {
          json.AppendMem(TRUE_TEXT);
        } else {
          json.AppendMem(FALSE_TEXT);
        }
        return true;
      case Null =>
        json.AppendMem(NULL_TEXT);
        return true;
      case Array(items) =>
        if depth + 1 > cfg.encodeMaxDepth {
          return false;
        }
        if |items| > 0 {
          ok := AppendArray(cfg, v, depth + 1, json);
        } else {
          TableDepth(v);
          ok := AppendObject(cfg, v, depth + 1, json);
        }
      case Object(members) =>
        if depth + 1 > cfg.encodeMaxDepth {
          return false;
        }
        TableDepth(v);
        ok := AppendObject(cfg, v, depth + 1, json);
    }
  }

  /** json_encode into a buffer that is kept from call to call: what it held before does not matter. */
  method Encode(cfg: Config, v: Json, encodeBuf: Strbuf) returns (text: Option<seq<Byte>>)
    requires encodeBuf.Valid() && NumbersShort(v)
    modifies encodeBuf, encodeBuf.buf
    ensures encodeBuf.Valid()
    ensures text == if Depth(v) <= cfg.encodeMaxDepth then Some(Printed(v)) else None
  {
    encodeBuf.Reset();
    var ok := AppendData(cfg, v, 0, encodeBuf);
    if !ok {
      return None;
    }
    assert [] + Printed(v) == Printed(v);
    return Some(encodeBuf.buf[..encodeBuf.length]);
  }
}
