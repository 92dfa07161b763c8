/** The tokens of JSON text: json_next_token and what it calls in lua_cjson.c, as functions of the text and position. */
module JsonLexer {
  import opened Bytes
  import opened Options
  import opened Unicode
  import opened Json

  datatype Problem = InvalidToken | InvalidNumber | UnexpectedEnd | InvalidUnicode | InvalidEscape

  datatype Token =
    | ObjBegin
    | ObjEnd
    | ArrBegin
    | ArrEnd
    | StringToken(bytes: seq<Byte>)
    | NumberToken(literal: seq<Byte>)
    | BooleanToken(value: bool)
    | NullToken
    | ColonToken
    | CommaToken
    | End
    | Error(problem: Problem)
  {
    /** Nothing follows such a token. */
    predicate Stops()
    {
      End? || Error?
    }
  }

  /** A token, where it was found, and where the text goes on. */
  datatype Lexed = Lexed(token: Token, index: nat, next: nat)

  predicate Whitespace(ch: Byte)
  {
    ch == ' ' as int || ch == 9 || ch == 10 || ch == 13
  }

  function SkipWhitespace(d: Text, p: nat): (r: nat)
    requires p < |d|
    ensures p <= r < |d| && !Whitespace(d[r])
    decreases |d| - p
  {
    if Whitespace(d[p]) then SkipWhitespace(d, p + 1) else p
  }

  /** escape2char; 0 for an escape that does not exist. */
  function EscapeChar(ch: Byte): (r: Byte)
    ensures ch == 0 ==> r == 0
  {
    if ch == QUOTE || ch == BACKSLASH || ch == SLASH then ch
    else if ch == 'b' as int then 8
    else if ch == 't' as int then 9
    else if ch == 'n' as int then 10
    else if ch == 'f' as int then 12
    else if ch == 'r' as int then 13
    else if ch == 'u' as int then LETTER_U
    else 0
  }

  /** The rest of a string token from p, acc being the bytes before. */
  function StringFrom(d: Text, p: nat, acc: seq<Byte>): (r: Lexed)
    requires p < |d|
    ensures p <= r.next < |d| && (r.token.StringToken? || r.token.Error?)
    ensures r.token.StringToken? ==> r.next > p && |r.token.bytes| <= |acc| + (r.next - p - 1)
    decreases |d| - p
  {
    if d[p] == QUOTE then Lexed(StringToken(acc), p, p + 1)
    else if d[p] == 0 then Lexed(Error(UnexpectedEnd), p, p)
    else if d[p] != BACKSLASH then StringFrom(d, p + 1, acc + [d[p]])
    else
      var ch := EscapeChar(d[p + 1]);
      if ch == LETTER_U then
        match UnicodeEscape(d, p)
        case Some((utf8, n)) => StringFrom(d, p + n, acc + utf8)
        case None => Lexed(Error(InvalidUnicode), p, p)
      else if ch == 0 then Lexed(Error(InvalidEscape), p, p)
      else StringFrom(d, p + 2, acc + [ch])
  }

  predicate Digit(ch: Byte)
  {
    '0' as int <= ch <= '9' as int
  }

  /** The bytes of w stand at p. */
  predicate StartsWith(d: seq<Byte>, p: nat, w: seq<Byte>)
  {
    p + |w| <= |d| && d[p..p + |w|] == w
  }

  function Lower(ch: Byte): (r: Byte)
  {
    if 'A' as int <= ch <= 'Z' as int then ch + 32 else ch
  }

  predicate StartsWithNoCase(d: seq<Byte>, p: nat, w: seq<Byte>)
  {
    p + |w| <= |d| && forall i | 0 <= i < |w| :: Lower(d[p + i]) == w[i]
  }

  /** json_is_invalid_number: what strtod takes and strict JSON does not. */
  predicate IsInvalidNumber(d: Text, q: nat)
    requires q < |d|
  {
    if d[q] == '+' as int then true
    else
      var p := if d[q] == '-' as int then q + 1 else q;
      if d[p] == '0' as int then Lower(d[p + 1]) == 'x' as int || Digit(d[p + 1])
      else if d[p] <= '9' as int then false
      else
        || StartsWithNoCase(d, p, ['i' as int, 'n' as int, 'f' as int])
        || StartsWithNoCase(d, p, ['n' as int, 'a' as int, 'n' as int])
  }

  /** strtod stays in the text. */
  ghost predicate ScanStops(cfg: Config)
  {
    forall s :: cfg.scan(s) <= |s|
  }

  function NumberFrom(cfg: Config, d: Text, q: nat): (r: Lexed)
    requires q < |d| && ScanStops(cfg)
    ensures q <= r.next < |d| && (r.token.NumberToken? || r.token.Error?)
    ensures r.token.NumberToken? ==> r.next > q
  {
    var k := cfg.scan(d[q..|d| - 1]);
    if k == 0 then Lexed(Error(InvalidNumber), q, q) else Lexed(NumberToken(d[q..q + k]), q, q + k)
  }

  /** A token of one character. */
  function SingleToken(ch: Byte): (r: Option<Token>)
    ensures r.Some? ==> !r.value.Stops()
  {
    if ch == OBJ_BEGIN then Some(ObjBegin)
    else if ch == OBJ_END then Some(ObjEnd)
    else if ch == ARR_BEGIN then Some(ArrBegin)
    else if ch == ARR_END then Some(ArrEnd)
    else if ch == COMMA then Some(CommaToken)
    else if ch == COLON then Some(ColonToken)
    else None
  }

  /** The characters tagged T_UNKNOWN in ch2token. */
  predicate NeedsMore(ch: Byte)
  {
    || Digit(ch) || ch == QUOTE || ch == '+' as int || ch == '-' as int || ch == 'f' as int || ch == 'i' as int
    || ch == 'I' as int || ch == 'n' as int || ch == 'N' as int || ch == 't' as int
  }

  /** A word without the terminator in it ends before the terminator. */
  lemma {:induction false} WordInside(d: Text, p: nat, w: seq<Byte>)
    requires StartsWith(d, p, w) && w != [] && w[|w| - 1] != 0
    ensures p + |w| < |d|
  {
    assert d[p..p + |w|][|w| - 1] == d[p + |w| - 1];
  }

  function WordFrom(cfg: Config, d: Text, q: nat): (r: Lexed)
    requires q < |d| && ScanStops(cfg)
    ensures q <= r.next < |d| && (!r.token.Stops() ==> q < r.next)
  {
    if StartsWith(d, q, TRUE_TEXT) then
      WordInside(d, q, TRUE_TEXT);
      Lexed(BooleanToken(true), q, q + 4)
    else if StartsWith(d, q, FALSE_TEXT) then
      WordInside(d, q, FALSE_TEXT);
      Lexed(BooleanToken(false), q, q + 5)
    else if StartsWith(d, q, NULL_TEXT) then
      WordInside(d, q, NULL_TEXT);
      Lexed(NullToken, q, q + 4)
    else if cfg.decodeInvalidNumbers && IsInvalidNumber(d, q) then NumberFrom(cfg, d, q)
    else Lexed(Error(InvalidToken), q, q)
  }

  /** json_next_token. A token that is not the end or an error takes at least a byte. */
  function NextToken(cfg: Config, d: Text, p: nat): (r: Lexed)
    requires p < |d| && ScanStops(cfg)
    ensures p <= r.next < |d|
    ensures !r.token.Stops() ==> p < r.next
  {
    var q := SkipWhitespace(d, p);
    var ch := d[q];
    if ch == 0 then Lexed(End, q, q)
    else if SingleToken(ch).Some? then Lexed(SingleToken(ch).value, q, q + 1)
    else if !NeedsMore(ch) then Lexed(Error(InvalidToken), q, q)
    else if ch == QUOTE then
      var s := StringFrom(d, q + 1, []);
      if s.token.Error? then s else s.(index := q)
    else if ch == '-' as int || Digit(ch) then
      if !cfg.decodeInvalidNumbers && IsInvalidNumber(d, q) then Lexed(Error(InvalidNumber), q, q)
      else NumberFrom(cfg, d, q)
    else WordFrom(cfg, d, q)
  }
}
