/** The grammar of json_decode in lua_cjson.c as functions of the text: which value, or which error and where. */
module JsonParser {
  import opened Bytes
  import opened Json
  import opened JsonLexer

  datatype Wanted = ObjectKey | AColon | CommaOrObjectEnd | CommaOrArrayEnd | AValue | TheEnd

  datatype Fault =
    | Unexpected(wanted: Wanted, found: Token, index: nat)
    | TooDeep(depth: nat, at: nat)
    | NotUtf8

  datatype Result = Done(value: Json, next: nat) | Failed(fault: Fault)

  /** What a token leaves to read: 0 for one that nothing follows. */
  function Left(d: Text, t: Lexed): (r: nat)
    requires t.next < |d|
  {
    if t.token.Stops() then 0 else |d| - t.next
  }

  function Missing(wanted: Wanted, t: Lexed): (r: Result)
  {
    Failed(Unexpected(wanted, t.token, t.index))
  }

  /** lua_rawset: the key's value is replaced, or the key is new. */
  function WithKey(members: seq<Member>, key: seq<Byte>, value: Json): (r: seq<Member>)
  {
    if members == [] then [Member(key, value)]
    else if members[0].key == key then [Member(key, value)] + members[1..]
    else [members[0]] + WithKey(members[1..], key, value)
  }

  /** json_process_value on a token. */
  function ParseValue(cfg: Config, d: Text, t: Lexed, depth: nat): (r: Result)
    requires t.next < |d| && ScanStops(cfg)
    ensures r.Done? ==> !t.token.Stops() && t.next <= r.next < |d|
    decreases Left(d, t), 1
  {
    match t.token
    case StringToken(bytes) => Done(String(bytes), t.next)
    case NumberToken(literal) => Done(Number(literal), t.next)
    case BooleanToken(b) => Done(Bool(b), t.next)
    case NullToken => Done(Null, t.next)
    case ObjBegin => ParseObject(cfg, d, t.next, depth)
    case ArrBegin => ParseArray(cfg, d, t.next, depth)
    case _ => Missing(AValue, t)
  }

  /** json_parse_array_context after the bracket. An empty array is the empty table. */
  function ParseArray(cfg: Config, d: Text, p: nat, depth: nat): (r: Result)
    requires p < |d| && ScanStops(cfg)
    ensures r.Done? ==> p <= r.next < |d|
    decreases |d| - p, 0
  {
    if depth + 1 > cfg.decodeMaxDepth then Failed(TooDeep(depth + 1, p))
    else
      var t := NextToken(cfg, d, p);
      if t.token.ArrEnd? then Done(Object([]), t.next) else ParseItems(cfg, d, t, depth + 1, [])
  }

  /** The loop of json_parse_array_context with the items read so far. */
  function ParseItems(cfg: Config, d: Text, t: Lexed, depth: nat, items: seq<Json>): (r: Result)
    requires t.next < |d| && ScanStops(cfg)
    ensures r.Done? ==> !t.token.Stops() && t.next <= r.next < |d|
    decreases Left(d, t), 2
  {
    match ParseValue(cfg, d, t, depth)
    case Failed(fault) => Failed(fault)
    case Done(value, p) =>
      var t2 := NextToken(cfg, d, p);
      if t2.token.ArrEnd? then Done(Array(items + [value]), t2.next)
      else if !t2.token.CommaToken? then Missing(CommaOrArrayEnd, t2)
      else ParseItems(cfg, d, NextToken(cfg, d, t2.next), depth, items + [value])
  }

  function ParseObject(cfg: Config, d: Text, p: nat, depth: nat): (r: Result)
    requires p < |d| && ScanStops(cfg)
    ensures r.Done? ==> p <= r.next < |d|
    decreases |d| - p, 0
  {
    if depth + 1 > cfg.decodeMaxDepth then Failed(TooDeep(depth + 1, p))
    else
      var t := NextToken(cfg, d, p);
      if t.token.ObjEnd? then Done(Object([]), t.next) else ParseMembers(cfg, d, t, depth + 1, [])
  }

  /** The loop of json_parse_object_context with the members stored so far. */
  function ParseMembers(cfg: Config, d: Text, t: Lexed, depth: nat, members: seq<Member>): (r: Result)
    requires t.next < |d| && ScanStops(cfg)
    ensures r.Done? ==> !t.token.Stops() && t.next <= r.next < |d|
    decreases Left(d, t), 2
  {
    if !t.token.StringToken? then Missing(ObjectKey, t)
    else
      var colon := NextToken(cfg, d, t.next);
      if !colon.token.ColonToken? then Missing(AColon, colon)
      else
        match ParseValue(cfg, d, NextToken(cfg, d, colon.next), depth)
        case Failed(fault) => Failed(fault)
        case Done(value, p) =>
          var t2 := NextToken(cfg, d, p);
          var stored := WithKey(members, t.token.bytes, value);
          if t2.token.ObjEnd? then Done(Object(stored), t2.next)
          else if !t2.token.CommaToken? then Missing(CommaOrObjectEnd, t2)
          else ParseMembers(cfg, d, NextToken(cfg, d, t2.next), depth, stored)
  }

  /** json_decode: one value and nothing after it. */
  function Decode(cfg: Config, d: Text): (r: Result)
    requires ScanStops(cfg)
    ensures r.Done? ==> r.next < |d| && d[r.next] == 0
  {
    if |d| > 2 && (d[0] == 0 || d[1] == 0) then Failed(NotUtf8)
    else
      match ParseValue(cfg, d, NextToken(cfg, d, 0), 0)
      case Failed(fault) => Failed(fault)
      case Done(value, p) =>
        var t := NextToken(cfg, d, p);
        if t.token.End? then Done(value, t.next) else Missing(TheEnd, t)
  }

  // ---- every decoded value is a Lua value within the depth limit ----

  /** The value is stored, and every other member stays as it is. */
  lemma {:induction false} WithKeyHolds(members: seq<Member>, key: seq<Byte>, value: Json)
    ensures var r := WithKey(members, key, value);
      && Member(key, value) in r
      && (forall m | m in r && m != Member(key, value) :: m in members)
      && (forall m | m in members && m.key != key :: m in r)
  {
    if members != [] {
      var first, rest := members[0], members[1..];
      assert members == [first] + rest;
      if first.key != key {
        WithKeyHolds(rest, key, value);
      }
    }
  }

  lemma {:induction false} WithKeyDistinct(members: seq<Member>, key: seq<Byte>, value: Json)
    requires Distinct(members)
    ensures Distinct(WithKey(members, key, value))
  {
    if members != [] {
      var first, rest := members[0], members[1..];
      if first.key != key {
        WithKeyHolds(rest, key, value);
        WithKeyDistinct(rest, key, value);
        forall m | m in WithKey(rest, key, value)
          ensures m.key != first.key
        {
        }
      }
    }
  }

  lemma {:induction false} WithNewKey(members: seq<Member>, key: seq<Byte>, value: Json)
    requires forall m | m in members :: m.key != key
    ensures WithKey(members, key, value) == members + [Member(key, value)]
  {
    if members != [] {
      WithNewKey(members[1..], key, value);
    }
  }

  lemma {:induction false} ItemsDepthAtMost(v: Json, n: nat, k: nat)
    requires v.Array? && n <= |v.items| && forall i | 0 <= i < n :: Depth(v.items[i]) <= k
    ensures ItemsDepth(v, n) <= k
  {
    if n > 0 {
      ItemsDepthAtMost(v, n - 1, k);
    }
  }

  lemma {:induction false} MembersDepthAtMost(v: Json, n: nat, k: nat)
    requires v.Object? && n <= |v.members| && forall i | 0 <= i < n :: Depth(v.members[i].value) <= k
    ensures MembersDepth(v, n) <= k
  {
    if n > 0 {
      MembersDepthAtMost(v, n - 1, k);
    }
  }

  ghost predicate Fits(cfg: Config, v: Json, depth: nat)
  {
    LuaValue(v) && depth + Depth(v) <= cfg.decodeMaxDepth
  }

  lemma {:induction false} ValueFits(cfg: Config, d: Text, t: Lexed, depth: nat)
    requires t.next < |d| && ScanStops(cfg) && depth <= cfg.decodeMaxDepth
    ensures var r := ParseValue(cfg, d, t, depth); r.Done? ==> Fits(cfg, r.value, depth)
    decreases Left(d, t), 1
  {
    if t.token.ArrBegin? && depth < cfg.decodeMaxDepth {
      var t1 := NextToken(cfg, d, t.next);
      if t1.token.ArrEnd? {
        assert Depth(Object([])) == 1;
      } else {
        ItemsFit(cfg, d, t1, depth, []);
      }
    } else if t.token.ObjBegin? && depth < cfg.decodeMaxDepth {
      var t1 := NextToken(cfg, d, t.next);
      if t1.token.ObjEnd? {
        assert Depth(Object([])) == 1;
      } else {
        MembersFit(cfg, d, t1, depth, []);
      }
    }
  }

  ghost predicate AllFit(cfg: Config, items: seq<Json>, depth: nat)
  {
    forall i | 0 <= i < |items| :: Fits(cfg, items[i], depth)
  }

  lemma {:induction false} ArrayFits(cfg: Config, items: seq<Json>, depth: nat)
    requires items != [] && AllFit(cfg, items, depth + 1)
    ensures Fits(cfg, Array(items), depth)
  {
    assert Fits(cfg, items[0], depth + 1);
    ItemsDepthAtMost(Array(items), |items|, cfg.decodeMaxDepth - depth - 1);
  }

  lemma {:induction false} MoreFit(cfg: Config, items: seq<Json>, value: Json, depth: nat)
    requires AllFit(cfg, items, depth) && Fits(cfg, value, depth)
    ensures AllFit(cfg, items + [value], depth)
  {
    hide Fits;
  }

  lemma {:induction false} ItemsFit(cfg: Config, d: Text, t: Lexed, depth: nat, items: seq<Json>)
    requires t.next < |d| && ScanStops(cfg) && depth < cfg.decodeMaxDepth && AllFit(cfg, items, depth + 1)
    ensures var r := ParseItems(cfg, d, t, depth + 1, items); r.Done? ==> Fits(cfg, r.value, depth)
    decreases Left(d, t), 2
  {
    hide Fits, AllFit, NextToken, ParseValue;
    ValueFits(cfg, d, t, depth + 1);
    var r := ParseValue(cfg, d, t, depth + 1);
    if r.Done? {
      var more := items + [r.value];
      MoreFit(cfg, items, r.value, depth + 1);
      var t2 := NextToken(cfg, d, r.next);
      if t2.token.ArrEnd? {
        ArrayFits(cfg, more, depth);
      } else if t2.token.CommaToken? {
        ItemsFit(cfg, d, NextToken(cfg, d, t2.next), depth, more);
      }
    }
  }

  /** What the members of a table must be like. */
  ghost predicate MembersAllFit(cfg: Config, members: seq<Member>, depth: nat)
  {
    Distinct(members) && forall m | m in members :: Fits(cfg, m.value, depth)
  }

  lemma {:induction false} ObjectFits(cfg: Config, members: seq<Member>, depth: nat)
    requires MembersAllFit(cfg, members, depth + 1) && depth < cfg.decodeMaxDepth
    ensures Fits(cfg, Object(members), depth)
  {
    MembersDepthAtMost(Object(members), |members|, cfg.decodeMaxDepth - depth - 1);
  }

  lemma {:induction false} StoredFits(cfg: Config, members: seq<Member>, key: seq<Byte>, value: Json, depth: nat)
    requires MembersAllFit(cfg, members, depth) && Fits(cfg, value, depth)
    ensures MembersAllFit(cfg, WithKey(members, key, value), depth)
  {
    WithKeyHolds(members, key, value);
    WithKeyDistinct(members, key, value);
    hide Fits, WithKey, Distinct;
  }

  lemma {:induction false} MembersFit(cfg: Config, d: Text, t: Lexed, depth: nat, members: seq<Member>)
    requires t.next < |d| && ScanStops(cfg) && depth < cfg.decodeMaxDepth && MembersAllFit(cfg, members, depth + 1)
    ensures var r := ParseMembers(cfg, d, t, depth + 1, members); r.Done? ==> Fits(cfg, r.value, depth)
    decreases Left(d, t), 2
  {
    hide Fits, MembersAllFit, NextToken, ParseValue, WithKey;
    var colon := NextToken(cfg, d, t.next);
    if t.token.StringToken? && colon.token.ColonToken? {
      var t1 := NextToken(cfg, d, colon.next);
      ValueFits(cfg, d, t1, depth + 1);
      var r := ParseValue(cfg, d, t1, depth + 1);
      if r.Done? {
        var more := WithKey(members, t.token.bytes, r.value);
        StoredFits(cfg, members, t.token.bytes, r.value, depth + 1);
        var t2 := NextToken(cfg, d, r.next);
        if t2.token.ObjEnd? {
          ObjectFits(cfg, more, depth);
        } else if t2.token.CommaToken? {
          MembersFit(cfg, d, NextToken(cfg, d, t2.next), depth, more);
        }
      }
    }
  }

  /** Whatever the text, a decoded value is one Lua can hold, nested no deeper than allowed: it can be encoded again
      under the same limit. */
  lemma {:induction false} DecodedFits(cfg: Config, d: Text)
    requires ScanStops(cfg)
    ensures Decode(cfg, d).Done? ==> LuaValue(Decode(cfg, d).value) && Depth(Decode(cfg, d).value) <= cfg.decodeMaxDepth
  {
    ValueFits(cfg, d, NextToken(cfg, d, 0), 0);
  }
}
