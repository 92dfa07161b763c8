/** The decoder of lua_cjson.c as it runs: a cursor over the text and one string buffer that never grows. */
module JsonDecoder {
  import opened Bytes
  import opened Strbufs
  import opened Unicode
  import opened Json
  import opened JsonLexer
  import opened JsonParser

  class Parser {
    const cfg: Config
    const data: Text
    var ptr: nat
    const tmp: Strbuf
    var depth: nat

    /** tmp has room for the whole text. */
    ghost predicate Valid()
      reads this, tmp
    {
      ScanStops(cfg) && tmp.Valid() && ptr < |data| && tmp.size >= |data|
    }

    constructor (cfg: Config, data: Text)
      requires ScanStops(cfg)
      ensures Valid() && this.cfg == cfg && this.data == data && ptr == 0 && depth == 0
      ensures fresh(tmp) && fresh(tmp.buf)
    {
      this.cfg := cfg;
      this.data := data;
      ptr := 0;
      depth := 0;
      tmp := new Strbuf(|data| - 1);
    }

    /** json_append_unicode_escape: false for what is no escape of a scalar value. The bytes stored are fewer than the
        bytes read, so the unchecked append has room. */
    method AppendUnicodeEscape() returns (ok: bool)
      requires Valid() && ptr + 2 < |data| && tmp.length < ptr
      modifies this`ptr, tmp`length, tmp.buf
      ensures Valid()
      ensures var r := UnicodeEscape(data, old(ptr));
        if r.Some? then ok && ptr == old(ptr) + r.value.1 && tmp.Contents() == old(tmp.Contents()) + r.value.0
        else !ok && ptr == old(ptr) && tmp.Contents() == old(tmp.Contents())
      ensures ok ==> ptr > old(ptr) && tmp.length - old(tmp.length) <= ptr - old(ptr)
    {
      hide Hex4, Utf8;
      var utf8 := new Byte[4];
      var escapeLen := 6;
      var codepoint := DecodeHex4(data, ptr + 2);
      if codepoint < 0 {
        return false;
      }
      if codepoint / 0x800 == 27 {
        if codepoint / 0x400 % 2 == 1 {
          return false;
        }
        if data[ptr + escapeLen] != BACKSLASH || data[ptr + escapeLen + 1] != LETTER_U {
          return false;
        }
        var low := DecodeHex4(data, ptr + 2 + escapeLen);
        if low < 0 {
          return false;
        }
        if low / 0x400 != 55 {
          return false;
        }
        codepoint := codepoint % 0x400 * 0x400 + low % 0x400 + 0x10000;
        escapeLen := 12;
      }
      var len := CodepointToUtf8(utf8, codepoint);
      if len == 0 {
        return false;
      }
      tmp.AppendMemUnsafe(utf8[..len]);
      ptr := ptr + escapeLen;
      return true;
    }

    /** json_next_string_token at a quote. Nothing is ever reallocated. */
    method NextStringToken() returns (token: Token, index: nat)
      requires Valid() && data[ptr] == QUOTE
      modifies this`ptr, tmp`length, tmp.buf
      ensures Valid()
      ensures var r := StringFrom(data, old(ptr) + 1, []);
        token == r.token && ptr == r.next && (token.Error? ==> index == r.index)
    {
      hide UnicodeEscape, EscapeChar, StringFrom, ScanStops;
      ghost var start := ptr + 1;
      index := ptr;
      ptr := ptr + 1;
      tmp.Reset();
      while data[ptr] != QUOTE
        invariant Valid() && start <= ptr && tmp.length <= ptr - start
        invariant StringFrom(data, start, []) == StringFrom(data, ptr, tmp.Contents())
        decreases |data| - ptr
      {
        token := TakeChar(start);
        if token.Error? {
          return token, ptr;
        }
      }
      StringStep(data, ptr, tmp.Contents());
      ptr := ptr + 1;
      tmp.EnsureNull();
      token := StringToken(tmp.buf[..tmp.length]);
    }

    /** One turn of its loop: a character or an escape is stored, or it is an error. */
    method TakeChar(ghost start: nat) returns (fault: Token)
      requires Valid() && data[ptr] != QUOTE && start <= ptr && tmp.length <= ptr - start && 0 < start
      modifies this`ptr, tmp`length, tmp.buf
      ensures Valid()
      ensures fault.Error? ==> StringFrom(data, old(ptr), old(tmp.Contents())) == Lexed(fault, ptr, ptr)
      ensures !fault.Error? ==>
        && StringFrom(data, old(ptr), old(tmp.Contents())) == StringFrom(data, ptr, tmp.Contents())
        && ptr > old(ptr) && tmp.length <= ptr - start
    {
      hide UnicodeEscape, EscapeChar, StringFrom, ScanStops;
      var ch := data[ptr];
      StringStep(data, ptr, tmp.Contents());
      if ch == 0 {
        return Error(UnexpectedEnd);
      }
      if ch == BACKSLASH {
        ch := EscapeChar(data[ptr + 1]);
        if ch == LETTER_U {
          var ok := AppendUnicodeEscape();
          return if ok then StringToken([]) else Error(InvalidUnicode);
        }
        if ch == 0 {
          return Error(InvalidEscape);
        }
        ptr := ptr + 1;
      }
      tmp.AppendCharUnsafe(ch);
      ptr := ptr + 1;
      return StringToken([]);
    }

    /** json_next_token. */
    method NextToken() returns (token: Token, index: nat)
      requires Valid()
      modifies this`ptr, tmp`length, tmp.buf
      ensures Valid() && Lexed(token, index, ptr) == JsonLexer.NextToken(cfg, data, old(ptr))
    {
      hide StringFrom, NumberFrom, IsInvalidNumber, StartsWith;
      while Whitespace(data[ptr])
        invariant Valid() && SkipWhitespace(data, old(ptr)) == SkipWhitespace(data, ptr)
        decreases |data| - ptr
      {
        ptr := ptr + 1;
      }
      var ch := data[ptr];
      index := ptr;
      if ch == 0 {
        return End, index;
      }
      if SingleToken(ch).Some? {
        ptr := ptr + 1;
        return SingleToken(ch).value, index;
      }
      if !NeedsMore(ch) {
        return Error(InvalidToken), index;
      }
      if ch == QUOTE {
        var at;
        token, at := NextStringToken();
        index := if token.Error? then at else index;
        return;
      }
      var r :=
        if ch == '-' as int || Digit(ch) then
          if !cfg.decodeInvalidNumbers && IsInvalidNumber(data, ptr) then Lexed(Error(InvalidNumber), ptr, ptr)
          else NumberFrom(cfg, data, ptr)
        else WordFrom(cfg, data, ptr);
      ptr := r.next;
      return r.token, r.index;
    }

    /** json_process_value: the value, with the cursor after it and the depth as it was, or the error. */
    method ProcessValue(token: Token, index: nat) returns (r: Result)
      requires Valid()
      modifies this`ptr, this`depth, tmp`length, tmp.buf
      ensures Valid() && r == ParseValue(cfg, data, Lexed(token, index, old(ptr)), old(depth))
      ensures r.Done? ==> ptr == r.next && depth == old(depth)
      decreases Left(data, Lexed(token, index, ptr)), 1
    {
      hide ParseArray, ParseObject;
      match token {
        case StringToken(bytes) => return Done(String(bytes), ptr);
        case NumberToken(literal) => return Done(Number(literal), ptr);
        case BooleanToken(b) => return Done(Bool(b), ptr);
        case ObjBegin => r := ParseObjectContext();
        case ArrBegin => r := ParseArrayContext();
        case NullToken => return Done(Null, ptr);
        case _ => return Missing(AValue, Lexed(token, index, ptr));
      }
    }

    /** json_parse_array_context. */
    method ParseArrayContext() returns (r: Result)
      requires Valid()
      modifies this`ptr, this`depth, tmp`length, tmp.buf
      ensures Valid() && r == ParseArray(cfg, data, old(ptr), old(depth))
      ensures r.Done? ==> ptr == r.next && depth == old(depth)
      decreases |data| - ptr, 0
    {
      hide ParseItems, JsonLexer.NextToken;
      depth := depth + 1;
      if depth > cfg.decodeMaxDepth {
        return Failed(TooDeep(depth, ptr));
      }
      var token, index := NextToken();
      if token.ArrEnd? {
        depth := depth - 1;
        return Done(Object([]), ptr);
      }
      var items: seq<Json> := [];
      ghost var whole := ParseItems(cfg, data, Lexed(token, index, ptr), depth, []);
      while true
        invariant Valid() && depth == old(depth) + 1
        invariant whole == ParseItems(cfg, data, Lexed(token, index, ptr), depth, items)
        invariant Left(data, Lexed(token, index, ptr)) < |data| - old(ptr)
        decreases Left(data, Lexed(token, index, ptr))
      {
        ItemsStep(cfg, data, Lexed(token, index, ptr), depth, items);
        r := ProcessValue(token, index);
        if r.Failed? {
          return;
        }
        items := items + [r.value];
        token, index := NextToken();
        if token.ArrEnd? {
          depth := depth - 1;
          return Done(Array(items), ptr);
        }
        if !token.CommaToken? {
          return Missing(CommaOrArrayEnd, Lexed(token, index, ptr));
        }
        token, index := NextToken();
      }
    }

    /** json_parse_object_context. */
    method ParseObjectContext() returns (r: Result)
      requires Valid()
      modifies this`ptr, this`depth, tmp`length, tmp.buf
      ensures Valid() && r == ParseObject(cfg, data, old(ptr), old(depth))
      ensures r.Done? ==> ptr == r.next && depth == old(depth)
      decreases |data| - ptr, 0
    {
      hide ParseMembers, JsonLexer.NextToken, WithKey;
      depth := depth + 1;
      if depth > cfg.decodeMaxDepth {
        return Failed(TooDeep(depth, ptr));
      }
      var token, index := NextToken();
      if token.ObjEnd? {
        depth := depth - 1;
        return Done(Object([]), ptr);
      }
      var members: seq<Member> := [];
      ghost var whole := ParseMembers(cfg, data, Lexed(token, index, ptr), depth, []);
      while true
        invariant Valid() && depth == old(depth) + 1
        invariant whole == ParseMembers(cfg, data, Lexed(token, index, ptr), depth, members)
        invariant Left(data, Lexed(token, index, ptr)) < |data| - old(ptr)
        decreases Left(data, Lexed(token, index, ptr))
      {
        MembersStep(cfg, data, Lexed(token, index, ptr), depth, members);
        if !token.StringToken? {
          return Missing(ObjectKey, Lexed(token, index, ptr));
        }
        var key := token.bytes;
        token, index := NextToken();
        if !token.ColonToken? {
          return Missing(AColon, Lexed(token, index, ptr));
        }
        token, index := NextToken();
        r := ProcessValue(token, index);
        if r.Failed? {
          return;
        }
        members := WithKey(members, key, r.value);
        token, index := NextToken();
        if token.ObjEnd? {
          depth := depth - 1;
          return Done(Object(members), ptr);
        }
        if !token.CommaToken? {
          return Missing(CommaOrObjectEnd, Lexed(token, index, ptr));
        }
        token, index := NextToken();
      }
    }
  }

  // ---- one unfolding of the specification ----

  lemma {:induction false} StringStep(d: Text, p: nat, acc: seq<Byte>)
    requires p < |d|
    ensures StringFrom(d, p, acc) ==
      if d[p] == QUOTE then Lexed(StringToken(acc), p, p + 1)
      else if d[p] == 0 then Lexed(Error(UnexpectedEnd), p, p)
      else if d[p] != BACKSLASH then StringFrom(d, p + 1, acc + [d[p]])
      else if EscapeChar(d[p + 1]) == LETTER_U then
        if UnicodeEscape(d, p).Some? then
          StringFrom(d, p + UnicodeEscape(d, p).value.1, acc + UnicodeEscape(d, p).value.0)
        else Lexed(Error(InvalidUnicode), p, p)
      else if EscapeChar(d[p + 1]) == 0 then Lexed(Error(InvalidEscape), p, p)
      else StringFrom(d, p + 2, acc + [EscapeChar(d[p + 1])])
  {
  }

  lemma {:induction false} ItemsStep(cfg: Config, d: Text, t: Lexed, depth: nat, items: seq<Json>)
    requires t.next < |d| && ScanStops(cfg)
    ensures ParseItems(cfg, d, t, depth, items) ==
      var v := ParseValue(cfg, d, t, depth);
      if v.Failed? then v
      else
        var t2 := JsonLexer.NextToken(cfg, d, v.next);
        if t2.token.ArrEnd? then Done(Array(items + [v.value]), t2.next)
        else if !t2.token.CommaToken? then Missing(CommaOrArrayEnd, t2)
        else ParseItems(cfg, d, JsonLexer.NextToken(cfg, d, t2.next), depth, items + [v.value])
  {
  }

  lemma {:induction false} MembersStep(cfg: Config, d: Text, t: Lexed, depth: nat, members: seq<Member>)
    requires t.next < |d| && ScanStops(cfg)
    ensures ParseMembers(cfg, d, t, depth, members) ==
      if !t.token.StringToken? then Missing(ObjectKey, t)
      else
        var colon := JsonLexer.NextToken(cfg, d, t.next);
        if !colon.token.ColonToken? then Missing(AColon, colon)
        else
          var v := ParseValue(cfg, d, JsonLexer.NextToken(cfg, d, colon.next), depth);
          if v.Failed? then v
          else
            var t2 := JsonLexer.NextToken(cfg, d, v.next);
            var stored := WithKey(members, t.token.bytes, v.value);
            if t2.token.ObjEnd? then Done(Object(stored), t2.next)
            else if !t2.token.CommaToken? then Missing(CommaOrObjectEnd, t2)
            else ParseMembers(cfg, d, JsonLexer.NextToken(cfg, d, t2.next), depth, stored)
  {
  }

  /** json_decode. */
  method Decode(cfg: Config, data: Text) returns (r: Result)
    requires ScanStops(cfg)
    ensures r == JsonParser.Decode(cfg, data)
  {
    hide ParseValue, JsonLexer.NextToken;
    if |data| > 2 && (data[0] == 0 || data[1] == 0) {
      return Failed(NotUtf8);
    }
    var json := new Parser(cfg, data);
    var token, index := json.NextToken();
    r := json.ProcessValue(token, index);
    if r.Failed? {
      return;
    }
    var value := r.value;
    token, index := json.NextToken();
    if !token.End? {
      return Missing(TheEnd, Lexed(token, index, json.ptr));
    }
    return Done(value, json.ptr);
  }
}
