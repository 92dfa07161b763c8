/** osip_uri_parse undoes osip_uri_to_str. */
module UriRoundTrip {
  import opened Options
  import opened QuotedText
  import opened OsipText
  import opened UriEscape
  import opened UriText

  // ---- which URIs ----

  /** Not blank at either end. */
  predicate Trimmed(s: string)
  {
    s == "" || (s[0] !in {' ', '\r', '\n', '\t'} && s[|s| - 1] !in {' ', '\r', '\n', '\t'})
  }

  /** sip or sips in any case, or whatever else begins with sip. */
  predicate SipLetters(s: string)
  {
    |s| >= 3 && (s[0] == 's' || s[0] == 'S') && (s[1] == 'i' || s[1] == 'I') && (s[2] == 'p' || s[2] == 'P')
  }

  /** A name or IPv4 address without separators, or an IPv6 address, which is what a colon announces. */
  predicate HostOk(host: string)
  {
    ';' !in host && '?' !in host && '@' !in host && '[' !in host && ']' !in host
  }

  predicate PortOk(port: string)
  {
    ':' !in port && ';' !in port && '?' !in port && '@' !in port && ']' !in port
  }

  /** A sip or sips URI whose parts the syntax can carry, each of them perhaps empty or with blanks around it. */
  predicate WellFormed(u: Url)
  {
    && u.scheme.Some? && SipLetters(u.scheme.value)
    && ':' !in u.scheme.value && '@' !in u.scheme.value && ' ' !in u.scheme.value
    && (u.username.Some? ==> CString(u.username.value))
    && (u.password.Some? ==> u.username.Some? && CString(u.password.value))
    && u.host.Some? && HostOk(u.host.value)
    && (u.port.Some? ==> PortOk(u.port.value))
    && (forall p | p in u.params :: Clean(p))
    && (forall p | p in u.headers :: Clean(p) && p.value.Some?)
    && u.other == None
  }

  // ---- what the parser makes of empty parts and of blanks ----

  /** A user or password that is empty where it may not be. */
  predicate UserRefused(u: Url)
  {
    u.password.Some? && (u.password == Some("") || u.username == Some(""))
  }

  /** No host, or a port of no or more than seven characters. */
  predicate PlaceRefused(u: Url)
  {
    u.host == Some("") || (u.port.Some? && (u.port == Some("") || |u.port.value| > 7))
  }

  function TrimmedParam(p: Param): (r: Param)
  {
    Param(Trim(p.name), if p.value == None then None else Some(Trim(p.value.value)))
  }

  /** The parameters up to the first with an empty name or value. */
  function GoodParams(ps: seq<Param>): (r: seq<Param>)
  {
    if ps == [] || ps[0].name == "" || ps[0].value == Some("") then []
    else [TrimmedParam(ps[0])] + GoodParams(ps[1..])
  }

  /** All parameters are good. */
  predicate NoEmpty(ps: seq<Param>)
  {
    forall p | p in ps :: p.name != "" && p.value != Some("")
  }

  /** The headers up to the first with an empty value, unless that is the last. */
  function GoodHeaders(ps: seq<Param>): (r: seq<Param>)
  {
    if ps == [] || (ps[0].value == Some("") && |ps| > 1) then [] else [TrimmedParam(ps[0])] + GoodHeaders(ps[1..])
  }

  predicate NoEmptyValue(ps: seq<Param>)
  {
    forall i: nat | i + 1 < |ps| :: ps[i].value != Some("")
  }

  /** What is read: the parts, without the blanks around host, port, parameters and headers. */
  function Read(u: Url): (r: Url)
  {
    u.(username := if u.username == Some("") then None else u.username,
       host := if u.host == None then None else Some(Trim(u.host.value)),
       port := if u.port == None then None else Some(Trim(u.port.value)),
       params := GoodParams(u.params), headers := GoodHeaders(u.headers))
  }

  // ---- searching ----

  lemma {:induction false} ChrIs(s: string, from: nat, k: nat, c: char)
    requires from <= k < |s| && s[k] == c && c !in s[from..k]
    ensures StrChr(s, from, c) == k
  {
    hide StrChr;
    forall j | from <= j < k
      ensures s[j] != c
    {
      assert s[from..k][j - from] == s[j];
    }
  }

  lemma {:induction false} ChrNot(s: string, from: nat, c: char)
    requires from <= |s| && c !in s[from..]
    ensures StrChr(s, from, c) == -1
  {
    hide StrChr;
    forall j | from <= j < |s|
      ensures s[j] != c
    {
      assert s[from..][j - from] == s[j];
    }
  }

  lemma {:induction false} TrimmedTrim(s: string)
    ensures Trim(s) == s <==> Trimmed(s)
  {
    var i, j := TrimCuts(s);
    hide Trim;
    if Trim(s) == s {
      assert |s[i..j]| == j - i;
    }
  }

  lemma {:induction false} Comes(scan: Scan, s: string, def: string)
    requires ReadsHex(scan) && CString(s) && '%' !in def
    ensures Unescaped(scan, Escape(s, def)) == Trim(s)
  {
    UnescapeEscape(scan, s, def);
  }

  lemma {:induction false} EscapedSome(s: string, def: string)
    requires CString(s)
    ensures Escape(s, def) == "" <==> s == ""
  {
  }

  // ---- parameters ----

  lemma {:induction false} ParamAvoids(p: Param, c: char)
    requires Clean(p) && !Kept(c, PARAM_SET) && c != '%' && c != ';' && c != '='
    ensures c !in ParamText(p)
  {
    EscapedAvoids(p.name, PARAM_SET, c);
    if p.value.Some? {
      EscapedAvoids(p.value.value, PARAM_SET, c);
    }
  }

  lemma {:induction false} ParamsAvoid(ps: seq<Param>, c: char)
    requires (forall p | p in ps :: Clean(p)) && !Kept(c, PARAM_SET) && c != '%' && c != ';' && c != '='
    ensures c !in ParamsText(ps)
  {
    if ps != [] {
      ParamAvoids(ps[0], c);
      ParamsAvoid(ps[1..], c);
    }
  }

  /** One turn of the parameter loop on a parameter of n characters. */
  lemma {:induction false} ParseStep(scan: Scan, t: string, n: nat, equal: int, rest: string)
    requires 1 <= n <= |t| && t[n..] == rest && StrChr(t, 1, ';') == (if rest == "" then -1 else n)
    requires equal == NextBefore(t, 1, '=', ';') && (equal == -1 || (2 <= equal && equal + 2 <= n)) && n >= 2
    ensures var p := if equal == -1 then Param(Unescaped(scan, t[1..n]), None)
                     else Param(Unescaped(scan, t[1..equal]), Some(Unescaped(scan, t[equal + 1..n])));
      ParseParams(scan, t) == if rest == "" then Listed([p], OSIP_SUCCESS) else More(p, ParseParams(scan, rest))
  {
    hide Unescaped, StrChr, NextBefore, ParseParams;
    ParamsUnfold(scan, t, StrChr(t, 1, ';'), equal);
    assert rest == "" ==> n == |t|;
  }

  lemma {:induction false} ValueRead(scan: Scan, name: string, value: string, rest: string)
    requires name != "" && value != "" && (rest != "" ==> rest[0] == ';')
    requires ';' !in name && '=' !in name && ';' !in value
    ensures var p := Param(Unescaped(scan, name), Some(Unescaped(scan, value)));
      ParseParams(scan, ";" + name + "=" + value + rest)
      == if rest == "" then Listed([p], OSIP_SUCCESS) else More(p, ParseParams(scan, rest))
  {
    hide Unescaped, StrChr, ParseParams;
    var t, n, e := ";" + name + "=" + value + rest, 2 + |name| + |value|, 1 + |name|;
    assert t[1..e] == name && t[e] == '=' && t[e + 1..n] == value && t[n..] == rest;
    assert t[1..n] == name + "=" + value;
    ChrIs(t, 1, e, '=');
    FindEnd(t, n, rest);
    ParseStep(scan, t, n, e, rest);
  }

  lemma {:induction false} FlagRead(scan: Scan, name: string, rest: string)
    requires name != "" && (rest != "" ==> rest[0] == ';') && ';' !in name && '=' !in name
    ensures var p := Param(Unescaped(scan, name), None);
      ParseParams(scan, ";" + name + rest)
      == if rest == "" then Listed([p], OSIP_SUCCESS) else More(p, ParseParams(scan, rest))
  {
    hide Unescaped, StrChr, ParseParams, NextBefore;
    var t, n := ";" + name + rest, 1 + |name|;
    assert t[1..n] == name && t[n..] == rest;
    FindEnd(t, n, rest);
    NoEqual(t, n, rest);
    ParseStep(scan, t, n, -1, rest);
  }

  /** The first parameter is read; rest is empty or starts with ';'. */
  lemma {:induction false} ParamRead(scan: Scan, p: Param, rest: string)
    requires ReadsHex(scan) && Clean(p) && p.name != "" && p.value != Some("") && (rest != "" ==> rest[0] == ';')
    ensures var q := TrimmedParam(p);
      ParseParams(scan, ParamText(p) + rest)
      == if rest == "" then Listed([q], OSIP_SUCCESS) else More(q, ParseParams(scan, rest))
  {
    hide Trim, Escape, Unescaped, ParseParams, StrChr, CString, ReadsHex;
    var name := Escape(p.name, PARAM_SET);
    EscapedAvoids(p.name, PARAM_SET, ';');
    EscapedAvoids(p.name, PARAM_SET, '=');
    EscapedPart(scan, p.name, PARAM_SET);
    if p.value.Some? {
      var value := Escape(p.value.value, PARAM_SET);
      EscapedAvoids(p.value.value, PARAM_SET, ';');
      EscapedPart(scan, p.value.value, PARAM_SET);
      ValueRead(scan, name, value, rest);
      assert ParamText(p) + rest == ";" + name + "=" + value + rest;
    } else {
      FlagRead(scan, name, rest);
      assert ParamText(p) + rest == ";" + name + rest;
    }
  }

  lemma {:induction false} FindEnd(t: string, n: nat, rest: string)
    requires 1 <= n <= |t| && t[n..] == rest && ';' !in t[1..n] && (rest != "" ==> rest[0] == ';')
    ensures StrChr(t, 1, ';') == if rest == "" then -1 else n
  {
    hide StrChr;
    if rest == "" {
      assert t[1..] == t[1..n];
      ChrNot(t, 1, ';');
    } else {
      assert t[n] == rest[0];
      ChrIs(t, 1, n, ';');
    }
  }

  lemma {:induction false} NoEqual(t: string, n: nat, rest: string)
    requires 1 <= n <= |t| && t[n..] == rest && '=' !in t[1..n] && ';' !in t[1..n] && (rest != "" ==> rest[0] == ';')
    ensures NextBefore(t, 1, '=', ';') == -1
  {
    FindEnd(t, n, rest);
    hide StrChr;
    forall k | 1 <= k < n
      ensures t[k] != '='
    {
      assert t[1..n][k - 1] == t[k];
    }
  }

  /** A parameter with an empty name or value ends the list. */
  lemma {:induction false} EmptyValue(scan: Scan, name: string, value: string, rest: string)
    requires (name == "" || value == "") && (rest != "" ==> rest[0] == ';')
    requires ';' !in name && '=' !in name && ';' !in value
    ensures ParseParams(scan, ";" + name + "=" + value + rest) == Listed([], -5)
  {
    hide StrChr, ParseParams;
    var t, n, e := ";" + name + "=" + value + rest, 2 + |name| + |value|, 1 + |name|;
    assert t[1..e] == name && t[e] == '=' && t[n..] == rest;
    assert t[1..n] == name + "=" + value;
    ChrIs(t, 1, e, '=');
    FindEnd(t, n, rest);
    assert rest == "" ==> n == |t|;
    ParamsUnfold(scan, t, StrChr(t, 1, ';'), e);
  }

  lemma {:induction false} EmptyFlag(scan: Scan, rest: string)
    requires rest != "" ==> rest[0] == ';'
    ensures ParseParams(scan, ";" + rest) == Listed([], -5)
  {
    hide StrChr, ParseParams, NextBefore;
    var t := ";" + rest;
    assert t[1..] == rest;
    FindEnd(t, 1, rest);
    NoEqual(t, 1, rest);
    ParamsUnfold(scan, t, StrChr(t, 1, ';'), -1);
  }

  lemma {:induction false} BadParam(scan: Scan, p: Param, rest: string)
    requires Clean(p) && (p.name == "" || p.value == Some("")) && (rest != "" ==> rest[0] == ';')
    ensures ParseParams(scan, ParamText(p) + rest) == Listed([], -5)
  {
    hide Escape, ParseParams, StrChr, CString;
    var name := Escape(p.name, PARAM_SET);
    EscapedAvoids(p.name, PARAM_SET, ';');
    EscapedAvoids(p.name, PARAM_SET, '=');
    EscapedSome(p.name, PARAM_SET);
    if p.value.Some? {
      var value := Escape(p.value.value, PARAM_SET);
      EscapedAvoids(p.value.value, PARAM_SET, ';');
      EscapedSome(p.value.value, PARAM_SET);
      EmptyValue(scan, name, value, rest);
      assert ParamText(p) + rest == ";" + name + "=" + value + rest;
    } else {
      EmptyFlag(scan, rest);
      assert ParamText(p) + rest == ";" + rest;
    }
  }

  /** Printed parameters are parsed as those parameters, up to the first with an empty name or value. */
  lemma {:induction false} ParamsRead(scan: Scan, ps: seq<Param>)
    requires ReadsHex(scan) && ps != [] && (forall p | p in ps :: Clean(p))
    ensures ParseParams(scan, ParamsText(ps)) == Listed(GoodParams(ps), if NoEmpty(ps) then 0 else -5)
    decreases |ps|
  {
    hide ParseParams, ParamText, TrimmedParam;
    var rest := ps[1..];
    assert ps == [ps[0]] + rest && Clean(ps[0]);
    if rest == [] {
      assert ParamText(ps[0]) + "" == ParamText(ps[0]);
    } else {
      ParamsRead(scan, rest);
      StartsWithMark(rest);
    }
    if ps[0].name == "" || ps[0].value == Some("") {
      BadParam(scan, ps[0], ParamsText(rest));
    } else {
      ParamRead(scan, ps[0], ParamsText(rest));
    }
  }

  lemma {:induction false} StartsWithMark(ps: seq<Param>)
    requires ps != [] && forall p | p in ps :: Clean(p)
    ensures ParamsText(ps) != "" && ParamsText(ps)[0] == ';'
  {
  }

  /** An escaped text as the parser sees it. */
  lemma {:induction false} EscapedPart(scan: Scan, s: string, def: string)
    requires ReadsHex(scan) && CString(s) && '%' !in def
    ensures (Escape(s, def) == "" <==> s == "") && Unescaped(scan, Escape(s, def)) == Trim(s)
  {
    EscapedSome(s, def);
    Comes(scan, s, def);
  }

  // ---- headers ----

  lemma {:induction false} HeadersAvoid(ps: seq<Param>, mark: char, c: char)
    requires forall p | p in ps :: Clean(p) && p.value.Some?
    requires !Kept(c, HEADER_SET) && c != '%' && c != '=' && c != '&' && c != mark
    ensures c !in HeadersText(ps, mark)
    decreases |ps|
  {
    if ps != [] {
      EscapedAvoids(ps[0].name, HEADER_SET, c);
      EscapedAvoids(ps[0].value.value, HEADER_SET, c);
      HeadersAvoid(ps[1..], '&', c);
    }
  }

  /** One turn of the header loop. */
  lemma {:induction false} HeaderRead(scan: Scan, mark: char, name: string, value: string, rest: string)
    requires (rest != "" ==> rest[0] == '&') && mark != '='
    requires '&' !in name && '=' !in name && '&' !in value
    ensures var p := Param(Unescaped(scan, name), Some(Unescaped(scan, value)));
      ParseHeaders(scan, [mark] + name + "=" + value + rest)
      == if rest == "" then Listed([p], OSIP_SUCCESS)
         else if value == "" then Listed([], -5)
         else More(p, ParseHeaders(scan, rest))
  {
    hide Unescaped, StrChr, ParseHeaders;
    var t, n, e := [mark] + name + "=" + value + rest, 2 + |name| + |value|, 1 + |name|;
    assert t[1..e] == name && t[e] == '=' && t[e + 1..n] == value && t[n..] == rest;
    assert t[0..e] == [mark] + name;
    assert t[1..n] == name + "=" + value;
    ChrIs(t, 0, e, '=');
    NextMark(t, n, name, value, rest);
    HeadersUnfold(scan, t, e, StrChr(t, 1, '&'));
    assert rest == "" ==> n == |t|;
  }

  lemma {:induction false} NextMark(t: string, n: nat, name: string, value: string, rest: string)
    requires 1 <= n <= |t| && t[1..n] == name + "=" + value && t[n..] == rest
    requires '&' !in name && '&' !in value && (rest != "" ==> rest[0] == '&')
    ensures StrChr(t, 1, '&') == if rest == "" then -1 else n
  {
    hide StrChr;
    if rest == "" {
      assert t[1..] == t[1..n];
      ChrNot(t, 1, '&');
    } else {
      assert t[n] == rest[0];
      ChrIs(t, 1, n, '&');
    }
  }

  /** Printed headers are parsed as those headers, up to one with an empty value that is not the last. */
  lemma {:induction false} HeadersRead(scan: Scan, ps: seq<Param>, mark: char)
    requires ReadsHex(scan) && ps != [] && mark != '='
    requires (forall p | p in ps :: Clean(p) && p.value.Some?)
    ensures HeadersText(ps, mark) != "" && HeadersText(ps, mark)[0] == mark
    ensures ParseHeaders(scan, HeadersText(ps, mark))
      == Listed(GoodHeaders(ps), if NoEmptyValue(ps) then 0 else -5)
    decreases |ps|
  {
    hide Trim, ParseHeaders, Unescaped, HeaderText, Escape, ReadsHex, CString;
    var p, rest := ps[0], ps[1..];
    assert ps == [p] + rest;
    HeaderParts(scan, p);
    if rest != [] {
      HeadersRead(scan, rest, '&');
    }
    var more := HeadersText(rest, '&');
    HeaderRead(scan, mark, Escape(p.name, HEADER_SET), Escape(p.value.value, HEADER_SET), more);
    HeaderPieces(p, mark, more);
  }

  lemma {:induction false} HeaderPieces(p: Param, mark: char, more: string)
    requires Clean(p) && p.value.Some?
    ensures [mark] + HeaderText(p) + more
      == [mark] + Escape(p.name, HEADER_SET) + "=" + Escape(p.value.value, HEADER_SET) + more
  {
    hide Escape;
  }

  lemma {:induction false} HeaderParts(scan: Scan, p: Param)
    requires ReadsHex(scan) && Clean(p) && p.value.Some?
    ensures var name, value := Escape(p.name, HEADER_SET), Escape(p.value.value, HEADER_SET);
      && '&' !in name && '=' !in name && '&' !in value && (value == "" <==> p.value.value == "")
      && Unescaped(scan, name) == Trim(p.name) && Unescaped(scan, value) == Trim(p.value.value)
  {
    hide Trim, Escape, Unescaped, CString, ReadsHex;
    EscapedAvoids(p.name, HEADER_SET, '&');
    EscapedAvoids(p.name, HEADER_SET, '=');
    EscapedAvoids(p.value.value, HEADER_SET, '&');
    EscapedPart(scan, p.name, HEADER_SET);
    EscapedPart(scan, p.value.value, HEADER_SET);
  }

  // ---- the whole text ----

  /** The texts of the parts of a printed URI. */
  datatype Parts = Parts(scheme: string, user: string, host: string, port: string, params: string, headers: string)
  {
    function Text(): (r: string)
    {
      scheme + ":" + user + host + port + params + headers
    }

    /** The marks each part keeps clear of. */
    ghost predicate Clear()
    {
      && scheme != "" && ':' !in scheme && '@' !in scheme
      && '@' !in host && '?' !in host && ';' !in host
      && '@' !in port && '?' !in port && ';' !in port
      && '@' !in params && '?' !in params && (params != "" ==> params[0] == ';')
      && '@' !in headers && ';' !in headers && (headers != "" ==> headers[0] == '?')
    }
  }

  function PartsOf(u: Url): (r: Parts)
    requires WellFormed(u) && CStrings(u)
  {
    Parts(u.scheme.value, UserText(u), HostText(u.host.value), PortText(u.port), ParamsText(u.params),
          HeadersText(u.headers, '?'))
  }

  lemma {:induction false} ParamsClear(ps: seq<Param>)
    requires forall p | p in ps :: Clean(p)
    ensures var t := ParamsText(ps); '@' !in t && '?' !in t && (t != "" ==> t[0] == ';') && (t == "" <==> ps == [])
  {
    ParamsAvoid(ps, '@');
    ParamsAvoid(ps, '?');
    if ps != [] {
      StartsWithMark(ps);
    }
    hide ParamText, Escape;
  }

  lemma {:induction false} HeadersClear(ps: seq<Param>)
    requires forall p | p in ps :: Clean(p) && p.value.Some?
    ensures var t := HeadersText(ps, '?');
      '@' !in t && ';' !in t && (t != "" ==> t[0] == '?') && (t == "" <==> ps == [])
  {
    HeadersAvoid(ps, '?', '@');
    HeadersAvoid(ps, '?', ';');
    hide HeaderText, Escape;
  }

  lemma {:induction false} PartsClear(u: Url)
    requires WellFormed(u) && CStrings(u)
    ensures PartsOf(u).Clear()
  {
    ParamsClear(u.params);
    HeadersClear(u.headers);
    hide UserText, ParamsText, HeadersText, Clean, CString;
  }

  /** Where the parts stand in the text. */
  datatype At = At(a: nat, b: nat, h: nat, p: nat, q: nat)

  function AtOf(x: Parts): (r: At)
  {
    var a := |x.scheme| + 1;
    var b := a + |x.user|;
    var h := b + |x.host|;
    var p := h + |x.port|;
    At(a, b, h, p, p + |x.params|)
  }

  ghost predicate Laid(x: Parts, t: string, i: At)
  {
    && 0 < i.a <= i.b <= i.h <= i.p <= i.q <= |t|
    && t[..i.a] == x.scheme + ":" && t[i.a..i.b] == x.user && t[i.b..i.h] == x.host
    && t[i.h..i.p] == x.port && t[i.p..i.q] == x.params && t[i.q..] == x.headers
  }

  lemma {:induction false} LaidOut(x: Parts)
    ensures Laid(x, x.Text(), AtOf(x))
  {
  }

  lemma {:induction false} SchemeRead(x: Parts, t: string, i: At)
    requires Laid(x, t, i) && x.Clear()
    ensures StrChr(t, 0, ':') == i.a - 1 && t[i.a - 1] == ':' && t[..i.a - 1] == x.scheme
  {
    hide StrChr;
    assert t[..i.a][..i.a - 1] == t[..i.a - 1] == t[0..i.a - 1];
    assert t[i.a - 1] == t[..i.a][i.a - 1];
    ChrIs(t, 0, i.a - 1, ':');
  }

  /** The marks that the text after the user does not contain. */
  lemma {:induction false} TailAvoids(x: Parts, t: string, i: At)
    requires Laid(x, t, i) && x.Clear()
    ensures '@' !in t[i.b..] && '?' !in t[i.b..i.q] && ';' !in t[i.b..i.p] && ';' !in t[i.q..]
    ensures x.params != "" ==> i.p < i.q && t[i.p] == ';'
    ensures x.headers != "" ==> i.q < |t| && t[i.q] == '?'
  {
    assert t[i.b..i.p] == x.host + x.port;
    assert t[i.b..i.q] == x.host + x.port + x.params;
    assert t[i.b..] == x.host + x.port + x.params + x.headers;
    if x.params != "" {
      assert t[i.p] == t[i.p..i.q][0];
    }
    if x.headers != "" {
      assert t[i.q] == t[i.q..][0];
    }
  }

  // ---- the user ----

  lemma {:induction false} SetsAvoid()
    ensures !Kept(':', USER_SET) && !Kept('@', USER_SET) && !Kept('@', PASSWORD_SET)
    ensures '%' !in USER_SET && '%' !in PASSWORD_SET
  {
  }

  lemma {:induction false} UserShape(scan: Scan, u: Url)
    requires ReadsHex(scan) && WellFormed(u) && u.username.Some?
    ensures var name := Escape(u.username.value, USER_SET);
      && (name == "" <==> u.username == Some("")) && ':' !in name && '@' !in name
      && Unescape(scan, name) == u.username.value
    ensures u.password.Some? ==>
      var pass := Escape(u.password.value, PASSWORD_SET);
      (pass == "" <==> u.password == Some("")) && '@' !in pass && Unescape(scan, pass) == u.password.value
  {
    SetsAvoid();
    hide Escape, Unescape, CString, Kept;
    EscapedAvoids(u.username.value, USER_SET, ':');
    EscapedAvoids(u.username.value, USER_SET, '@');
    EscapedSome(u.username.value, USER_SET);
    UnescapeEscape(scan, u.username.value, USER_SET);
    if u.password.Some? {
      EscapedAvoids(u.password.value, PASSWORD_SET, '@');
      EscapedSome(u.password.value, PASSWORD_SET);
      UnescapeEscape(scan, u.password.value, PASSWORD_SET);
    }
  }

  /** A user without a password between the scheme's colon and the '@' at m. */
  lemma {:induction false} NameAt(scan: Scan, t: string, a: nat, m: nat)
    requires 1 <= a < m < |t| && t[a - 1] == ':' && t[m] == '@' && '@' !in t[..m] && ':' !in t[a..m]
    ensures ParseUser(scan, t, a - 1) == User(m, Some(Unescape(scan, t[a..m])), None)
  {
    hide StrChr, Unescape;
    SliceAvoids(t, a, m, '@');
    ChrIs(t, 0, m, '@');
    ChrIs(t, a, m, '@');
    NoColon(t, a, m);
    hide NextBefore;
  }

  /** A user, the colon at k and a password before the '@' at m; neither may be empty. */
  lemma {:induction false} NameAndPassAt(scan: Scan, t: string, a: nat, k: nat, m: nat)
    requires 1 <= a <= k < m < |t| && t[a - 1] == ':' && t[m] == '@' && '@' !in t[..m]
    requires t[k] == ':' && ':' !in t[a..k]
    ensures ParseUser(scan, t, a - 1)
      == if a == k || k == m - 1 then BadUser
         else User(m, Some(Unescape(scan, t[a..k])), Some(Unescape(scan, t[k + 1..m])))
  {
    hide StrChr, Unescape;
    SliceAvoids(t, a, m, '@');
    ChrIs(t, 0, m, '@');
    ChrIs(t, a, m, '@');
    ChrIs(t, a, k, ':');
  }

  /** Nothing between the scheme's colon and the '@'. */
  lemma {:induction false} EmptyNameAt(scan: Scan, t: string, a: nat)
    requires 1 <= a < |t| && t[a - 1] == ':' && t[a] == '@' && '@' !in t[..a]
    ensures ParseUser(scan, t, a - 1) == User(a, None, None)
  {
    hide StrChr;
    SliceAvoids(t, a, a, '@');
    ChrIs(t, 0, a, '@');
  }

  lemma {:induction false} SliceAvoids(t: string, a: nat, m: nat, c: char)
    requires a <= m <= |t| && c !in t[..m]
    ensures c !in t[a..m] && c !in t[0..m] && forall k | 0 <= k < m :: t[k] != c
  {
    forall k | 0 <= k < m
      ensures t[k] != c
    {
      assert t[..m][k] == t[k];
    }
  }

  lemma {:induction false} NoColon(t: string, a: nat, m: nat)
    requires a <= m < |t| && ':' !in t[a..m] && t[m] == '@' && StrChr(t, a, '@') == m
    ensures NextBefore(t, a, ':', '@') == -1
  {
    hide StrChr;
    forall k | a <= k < m
      ensures t[k] != ':'
    {
      assert t[a..m][k - a] == t[k];
    }
  }

  /** What stands before the '@' contains none, and where the user and the password are. */
  lemma {:induction false} UserPlaced(t: string, a: nat, b: nat, name: string, pass: Option<string>)
    requires a <= b <= |t| && '@' !in t[..a] && '@' !in name && (pass.Some? ==> '@' !in pass.value)
    requires t[a..b] == name + (if pass == None then "" else ":" + pass.value) + "@"
    ensures var k := a + |name|;
      && k < b && t[b - 1] == '@' && t[a..k] == name && '@' !in t[..b - 1]
      && if pass == None then k == b - 1
         else t[k] == ':' && b - 1 == k + 1 + |pass.value| && t[k + 1..b - 1] == pass.value
  {
    var k := a + |name|;
    assert t[a..k] == t[a..b][..|name|];
    assert t[b - 1] == t[a..b][b - 1 - a];
    assert t[a..b - 1] == t[a..b][..b - 1 - a];
    assert t[..b - 1] == t[..a] + t[a..b - 1];
    if pass.Some? {
      assert t[k] == t[a..b][|name|];
      assert t[k + 1..b - 1] == t[a..b][|name| + 1..b - 1 - a];
    }
  }

  lemma {:induction false} NobodyAt(scan: Scan, t: string, a: nat)
    requires 0 < a <= |t| && t[a - 1] == ':' && '@' !in t[..a] && '@' !in t[a..]
    ensures ParseUser(scan, t, a - 1) == User(a - 1, None, None)
  {
    assert t[0..] == t[..a] + t[a..];
    ChrNot(t, 0, '@');
  }

  /** The escaped user and password, as UserText prints them. */
  predicate UserParts(t: string, name: Option<string>, pass: Option<string>)
  {
    t == if name == None then "" else name.value + (if pass == None then "" else ":" + pass.value) + "@"
  }

  lemma {:induction false} UserFound(scan: Scan, t: string, a: nat, b: nat, name: Option<string>, pass: Option<string>)
    requires 0 < a <= b <= |t| && t[a - 1] == ':' && '@' !in t[..a] && '@' !in t[b..] && UserParts(t[a..b], name, pass)
    requires name.Some? ==> ':' !in name.value && '@' !in name.value
    requires pass.Some? ==> name.Some? && '@' !in pass.value
    ensures t[b - 1] == ':' || t[b - 1] == '@'
    ensures ParseUser(scan, t, a - 1)
      == if pass.Some? && (pass == Some("") || name == Some("")) then BadUser
         else
           User(b - 1, if name == None || name == Some("") then None else Some(Unescape(scan, name.value)),
                if pass == None then None else Some(Unescape(scan, pass.value)))
  {
    hide *;
    if name == None {
      NoUserParts(t[a..b], name, pass);
      NobodyAt(scan, t, a);
    } else {
      SomeUserParts(t[a..b], name, pass);
      UserPlaced(t, a, b, name.value, pass);
      var k := a + |name.value|;
      if pass.Some? {
        NameAndPassAt(scan, t, a, k, b - 1);
      } else if name == Some("") {
        EmptyNameAt(scan, t, a);
      } else {
        NameAt(scan, t, a, k);
      }
    }
  }

  lemma {:induction false} NoUserParts(t: string, name: Option<string>, pass: Option<string>)
    requires UserParts(t, name, pass) && name == None
    ensures |t| == 0
  {
  }

  lemma {:induction false} SomeUserParts(t: string, name: Option<string>, pass: Option<string>)
    requires UserParts(t, name, pass) && name.Some?
    ensures t == name.value + (if pass == None then "" else ":" + pass.value) + "@"
  {
  }

  lemma {:induction false} UserRead(scan: Scan, u: Url, t: string, a: nat, b: nat)
    requires ReadsHex(scan) && WellFormed(u) && CStrings(u)
    requires 0 < a <= b <= |t| && t[a - 1] == ':' && '@' !in t[..a] && '@' !in t[b..] && t[a..b] == UserText(u)
    ensures t[b - 1] == ':' || t[b - 1] == '@'
    ensures ParseUser(scan, t, a - 1) == if UserRefused(u) then BadUser else User(b - 1, Read(u).username, u.password)
  {
    hide Escape, Unescape, ParseUser, ReadsHex, GoodParams, GoodHeaders;
    if u.username.Some? {
      UserShape(scan, u);
    }
    var name := if u.username == None then None else Some(Escape(u.username.value, USER_SET));
    var pass := if u.password == None then None else Some(Escape(u.password.value, PASSWORD_SET));
    UserFound(scan, t, a, b, name, pass);
  }

  // ---- host and port ----

  lemma {:induction false} BackIs(s: string, host: nat, from: nat, c: char, d: char, k: nat)
    requires host <= k <= from <= |s| && (k == host || (k < |s| && (s[k] == c || s[k] == d)))
    requires forall j | k < j <= from && j < |s| :: s[j] != c && s[j] != d
    ensures BackTo(s, host, from, c, d) == k
  {
    hide BackTo;
  }

  /** Without a port, at the end p of the host text. */
  lemma {:induction false} NoPort(t: string, x: nat, p: nat, hostText: string, host: string)
    requires x + 1 < p <= |t| && (t[x] == ':' || t[x] == '@') && t[x + 1..p] == hostText && hostText == HostText(host)
    requires HostOk(host) && (p < |t| ==> t[p] != ']')
    ensures ParsePlace(t, x, p) == Place(Trim(host), None)
  {
    hide BackTo, HostOk;
    if ':' in host {
      NoPortBracketed(t, x, p, host);
    } else {
      NoPortPlain(t, x, p, host);
    }
  }

  lemma {:induction false} NoPortBracketed(t: string, x: nat, p: nat, host: string)
    requires x + 1 < p <= |t| && (t[x] == ':' || t[x] == '@') && t[x + 1..p] == "[" + host + "]" && HostOk(host)
    requires host != "" && (p < |t| ==> t[p] != ']')
    ensures ParsePlace(t, x, p) == Place(Trim(host), None)
  {
    hide BackTo, StrChr, Trim, HostOk;
    Bracketed(t, x, p, p, host);
    BackIs(t, x, p - 1, ']', ':', p - 1);
  }

  lemma {:induction false} NoPortPlain(t: string, x: nat, p: nat, host: string)
    requires x + 1 < p <= |t| && (t[x] == ':' || t[x] == '@') && t[x + 1..p] == host && ':' !in host && HostOk(host)
    requires p < |t| ==> t[p] != ']'
    ensures ParsePlace(t, x, p) == Place(Trim(host), None)
  {
    forall j | x < j <= p - 1
      ensures t[j] != ']' && t[j] != ':'
    {
      assert t[j] == t[x + 1..p][j - x - 1];
    }
    hide BackTo, StrChr, Trim, HostOk;
    BackIs(t, x, p - 1, ']', ':', x);
    Unbracketed(t, x, p, host);
  }

  lemma {:induction false} WithPort(t: string, x: nat, h: nat, p: nat, hostText: string, host: string, port: string)
    requires x + 1 < h < p <= |t| && (t[x] == ':' || t[x] == '@')
    requires t[x + 1..h] == hostText && hostText == HostText(host)
    requires t[h..p] == ":" + port && HostOk(host) && PortOk(port)
    ensures ParsePlace(t, x, p) == if port == "" || |port| > 7 then BadPlace else Place(Trim(host), Some(Trim(port)))
  {
    hide BackTo, Trim;
    PortAt(t, x, h, p, port);
    assert t[h] == ':';
    if ':' in host {
      Bracketed(t, x, h, p, host);
    } else {
      Unbracketed(t, x, h, host);
    }
  }

  lemma {:induction false} PortAt(t: string, x: nat, h: nat, p: nat, port: string)
    requires x < h < p <= |t| && t[h..p] == ":" + port && PortOk(port)
    ensures t[h] == ':' && BackTo(t, x, p - 1, ']', ':') == h
    ensures t[h + 1..p] == port && p - h == 1 + |port|
  {
    hide BackTo, Trim;
    assert t[h] == t[h..p][0];
    assert t[h + 1..p] == t[h..p][1..];
    assert t[h..p][1..] == port;
    forall j | h < j <= p - 1
      ensures t[j] != ']' && t[j] != ':'
    {
      assert t[j] == t[h + 1..p][j - h - 1];
    }
    BackIs(t, x, p - 1, ']', ':', h);
  }

  lemma {:induction false} Inner(t: string, i: nat, j: nat, k: nat, l: nat)
    requires i <= j <= |t| && k <= l <= j - i
    ensures t[i..j][k..l] == t[i + k..i + l]
  {
    var a, b := t[i..j][k..l], t[i + k..i + l];
    assert |a| == |b|;
    forall m | 0 <= m < |a|
      ensures a[m] == b[m]
    {
      assert a[m] == t[i..j][k + m];
    }
  }

  /** An IPv6 host is found between its brackets, whether a port follows or not. */
  lemma {:induction false} Bracketed(t: string, x: nat, h: nat, p: nat, host: string)
    requires x + 1 < h <= p <= |t| && (t[x] == ':' || t[x] == '@') && t[x + 1..h] == "[" + host + "]" && HostOk(host)
    requires host != ""
    requires h < |t| ==> t[h] != ']'
    ensures BackTo(t, x, h, ']', ']') == h - 1 && t[h - 1] == ']' && StrChr(t, x, '[') == x + 1
    ensures h - 1 - (x + 1) >= 2 && t[x + 2..h - 1] == host
  {
    hide BackTo, StrChr, Trim;
    assert t[x + 1] == t[x + 1..h][0] && t[h - 1] == t[x + 1..h][h - x - 2];
    assert t[x + 1..h][1..h - x - 2] == host;
    Inner(t, x + 1, h, 1, h - x - 2);
    BackIs(t, x, h, ']', ']', h - 1);
    assert t[x..x + 1] == [t[x]];
    ChrIs(t, x, x + 1, '[');
  }

  lemma {:induction false} Unbracketed(t: string, x: nat, h: nat, host: string)
    requires x + 1 < h <= |t| && (t[x] == ':' || t[x] == '@') && t[x + 1..h] == host && HostOk(host)
    requires h < |t| ==> t[h] != ']'
    ensures BackTo(t, x, h, ']', ']') == x && t[x + 1..h] == host
  {
    hide BackTo, Trim;
    forall j | x < j <= h && j < |t|
      ensures t[j] != ']'
    {
      if j < h {
        assert t[j] == t[x + 1..h][j - x - 1];
      }
    }
    BackIs(t, x, h, ']', ']', x);
  }

  /** No characters between the mark and the port. */
  lemma {:induction false} NoHost(t: string, x: nat, p: nat, port: Option<string>)
    requires x < p <= |t| && (t[x] == ':' || t[x] == '@') && t[x + 1..p] == PortText(port) && (p < |t| ==> t[p] != ']')
    requires port.Some? ==> PortOk(port.value)
    ensures ParsePlace(t, x, p) == BadPlace
  {
    hide BackTo, Trim, StrChr;
    if port.Some? {
      PortAt(t, x, x + 1, p, port.value);
      BackIs(t, x, x + 1, ']', ']', x);
    } else {
      assert p == x + 1;
      BackIs(t, x, x, ']', ':', x);
      BackIs(t, x, p, ']', ']', x);
    }
  }

  // ---- the round trip ----

  lemma {:induction false} PlaceRead(u: Url, t: string, b: nat, h: nat, p: nat)
    requires WellFormed(u) && 0 < b <= h <= p <= |t| && (t[b - 1] == ':' || t[b - 1] == '@')
    requires t[b..h] == HostText(u.host.value) && t[h..p] == PortText(u.port) && (p < |t| ==> t[p] != ']')
    ensures ParsePlace(t, b - 1, p) == if PlaceRefused(u) then BadPlace else Place(Read(u).host.value, Read(u).port)
  {
    hide ParsePlace;
    if u.host == Some("") {
      NoHost(t, b - 1, p, u.port);
    } else if u.port.Some? {
      assert |t[h..p]| > 0;
      WithPort(t, b - 1, h, p, t[b..h], u.host.value, u.port.value);
    } else {
      assert t[h..p] == "" && h == p;
      NoPort(t, b - 1, p, t[b..h], u.host.value);
    }
  }

  /** The first c from the mark before the host on. */
  lemma {:induction false} MarkRead(t: string, b: nat, k: nat, c: char, there: bool)
    requires 0 < b <= k <= |t| && t[b - 1] != c && c !in t[b..k]
    requires if there then k < |t| && t[k] == c else c !in t[k..]
    ensures StrChr(t, b - 1, c) == if there then k else -1
  {
    hide StrChr;
    assert t[b - 1..k] == [t[b - 1]] + t[b..k];
    if there {
      ChrIs(t, b - 1, k, c);
    } else {
      assert t[b - 1..] == t[b - 1..k] + t[k..];
      ChrNot(t, b - 1, c);
    }
  }

  /** Where the parser finds the headers and the parameters. */
  lemma {:induction false} MarksRead(x: Parts, t: string, i: At)
    requires Laid(x, t, i) && x.Clear() && (t[i.b - 1] == ':' || t[i.b - 1] == '@')
    ensures StrChr(t, i.b - 1, '?') == if x.headers == "" then -1 else i.q
    ensures StrChr(t, i.b - 1, ';') == if x.params == "" then -1 else i.p
    ensures (x.headers == "" ==> i.q == |t|) && (x.params == "" ==> i.p == i.q)
  {
    hide StrChr;
    TailAvoids(x, t, i);
    MarkRead(t, i.b, i.q, '?', x.headers != "");
    assert x.params == "" ==> i.p == i.q;
    MarkRead(t, i.b, i.p, ';', x.params != "");
  }

  ghost predicate Ordered(t: string, i: At)
  {
    3 < i.a <= i.b <= i.h <= i.p <= i.q <= |t| && t[i.a - 1] == ':' && (t[i.b - 1] == ':' || t[i.b - 1] == '@')
  }

  ghost predicate HeadFound(scan: Scan, u: Url, t: string, i: At)
    requires Ordered(t, i)
  {
    && u.scheme.Some? && StrChr(t, 0, ':') == i.a - 1 && t[..i.a - 1] == u.scheme.value
    && SipScheme(u.scheme.value) && ' ' !in u.scheme.value
    && ParseUser(scan, t, i.a - 1) == if UserRefused(u) then BadUser else User(i.b - 1, Read(u).username, u.password)
  }

  ghost predicate MarksFound(u: Url, t: string, i: At)
    requires Ordered(t, i)
  {
    && StrChr(t, i.b - 1, '?') == (if u.headers == [] then -1 else i.q) && (u.headers == [] ==> i.q == |t|)
    && StrChr(t, i.b - 1, ';') == (if u.params == [] then -1 else i.p) && (u.params == [] ==> i.p == i.q)
  }

  ghost predicate PlaceFound(u: Url, t: string, i: At)
    requires Ordered(t, i)
  {
    && u.host.Some?
    && ParsePlace(t, i.b - 1, i.p) == if PlaceRefused(u) then BadPlace else Place(Read(u).host.value, Read(u).port)
  }

  ghost predicate ListsFound(scan: Scan, u: Url, t: string, i: At)
    requires Ordered(t, i)
  {
    && (u.params != [] ==> i.p < i.q && ParseParams(scan, t[i.p..i.q]).items == GoodParams(u.params))
    && (u.headers != [] ==> i.q < |t| && t[i.q] == '?' && ParseHeaders(scan, t[i.q..]).items == GoodHeaders(u.headers))
  }

  /** The parts found make the URI. */
  lemma {:induction false} Assembled(scan: Scan, u: Url, t: string, i: At)
    requires Ordered(t, i) && u.other == None
    requires HeadFound(scan, u, t, i) && MarksFound(u, t, i) && PlaceFound(u, t, i) && ListsFound(scan, u, t, i)
    ensures Parse(scan, t) == if UserRefused(u) || PlaceRefused(u) then Failed(-5) else Done(Read(u))
  {
    hide StrChr, ParseUser, ParsePlace, ParseParams, ParseHeaders, SipScheme;
    assert u.params == [] ==> GoodParams(u.params) == [];
    assert u.headers == [] ==> GoodHeaders(u.headers) == [];
    hide GoodParams, GoodHeaders, UserRefused, PlaceRefused;
  }

  lemma {:induction false} ParamsFound(scan: Scan, ps: seq<Param>, x: Parts, t: string, i: At)
    requires ReadsHex(scan) && (forall p | p in ps :: Clean(p))
    requires Laid(x, t, i) && x.params == ParamsText(ps) && ps != []
    ensures i.p < i.q && ParseParams(scan, t[i.p..i.q]).items == GoodParams(ps)
  {
    ParamsRead(scan, ps);
    StartsWithMark(ps);
    hide ParseParams, ParamsText;
  }

  lemma {:induction false} HeadersFound(scan: Scan, ps: seq<Param>, x: Parts, t: string, i: At)
    requires ReadsHex(scan) && (forall p | p in ps :: Clean(p) && p.value.Some?)
    requires Laid(x, t, i) && x.headers == HeadersText(ps, '?') && ps != []
    ensures i.q < |t| && t[i.q] == '?' && ParseHeaders(scan, t[i.q..]).items == GoodHeaders(ps)
  {
    HeadersRead(scan, ps, '?');
    assert t[i.q] == t[i.q..][0];
    hide ParseHeaders, HeadersText;
  }

  lemma {:induction false} PrintedAs(u: Url)
    requires WellFormed(u) && CStrings(u)
    ensures ToText(u) == Some(PartsOf(u).Text())
  {
    hide UserText, HostText, PortText, ParamsText, HeadersText;
  }

  lemma {:induction false} SchemeLong(u: Url)
    requires WellFormed(u)
    ensures SipScheme(u.scheme.value) && |u.scheme.value| >= 3
  {
    SipExactly(u.scheme.value);
  }

  /** The scheme and the user are found. */
  lemma {:induction false} HeadStands(scan: Scan, u: Url, t: string, i: At)
    requires ReadsHex(scan) && WellFormed(u) && CStrings(u) && Laid(PartsOf(u), t, i)
    ensures Ordered(t, i) && HeadFound(scan, u, t, i)
  {
    hide UserText, HostText, PortText, ParamsText, HeadersText, Parse, ParseUser, StrChr, SipScheme, ReadsHex;
    var x := PartsOf(u);
    PartsClear(u);
    SchemeRead(x, t, i);
    SchemeLong(u);
    TailAvoids(x, t, i);
    assert '@' !in t[..i.a];
    UserRead(scan, u, t, i.a, i.b);
  }

  /** The marks, the host and the port are found. */
  lemma {:induction false} TailStands(u: Url, t: string, i: At)
    requires WellFormed(u) && CStrings(u) && Laid(PartsOf(u), t, i) && Ordered(t, i)
    ensures MarksFound(u, t, i) && PlaceFound(u, t, i)
  {
    hide UserText, HostText, PortText, ParamsText, HeadersText, ParsePlace, StrChr, SipScheme;
    var x := PartsOf(u);
    PartsClear(u);
    ParamsClear(u.params);
    HeadersClear(u.headers);
    TailAvoids(x, t, i);
    MarksRead(x, t, i);
    PlaceRead(u, t, i.b, i.h, i.p);
  }

  /** The parameters and the headers are found. */
  lemma {:induction false} ListsStand(scan: Scan, u: Url, t: string, i: At)
    requires ReadsHex(scan) && WellFormed(u) && CStrings(u) && Laid(PartsOf(u), t, i) && Ordered(t, i)
    ensures ListsFound(scan, u, t, i)
  {
    hide UserText, HostText, PortText, ParamsText, HeadersText, ParseParams, ParseHeaders, SipScheme, Clean;
    hide ReadsHex;
    var x := PartsOf(u);
    if u.params != [] {
      ParamsFound(scan, u.params, x, t, i);
    }
    if u.headers != [] {
      HeadersFound(scan, u.headers, x, t, i);
    }
  }

  lemma {:induction false} NotOther(u: Url)
    requires WellFormed(u)
    ensures u.other == None
  {
  }

  /** What parsing a printed URI gives, for every way sscanf may treat what is not two hexadecimal digits. */
  lemma {:induction false} PrintedParses(scan: Scan, u: Url)
    requires ReadsHex(scan) && WellFormed(u) && CStrings(u)
    ensures ToText(u).Some?
    ensures Parse(scan, ToText(u).value) == if UserRefused(u) || PlaceRefused(u) then Failed(-5) else Done(Read(u))
  {
    hide *;
    var x := PartsOf(u);
    var t, i := x.Text(), AtOf(x);
    PrintedAs(u);
    NotOther(u);
    LaidOut(x);
    HeadStands(scan, u, t, i);
    TailStands(u, t, i);
    ListsStand(scan, u, t, i);
    Assembled(scan, u, t, i);
  }

  /** The parts that may not be empty are not, the port has at most seven characters, and there are no blanks around
      host, port, parameters and headers. */
  predicate Filled(u: Url)
  {
    && u.username != Some("") && u.password != Some("") && u.host.Some? && u.host != Some("") && Trimmed(u.host.value)
    && (u.port.Some? ==> 1 <= |u.port.value| <= 7 && Trimmed(u.port.value))
    && NoEmpty(u.params) && (forall p | p in u.params :: TrimmedTexts(p))
    && NoEmptyValue(u.headers) && (forall p | p in u.headers :: TrimmedTexts(p))
  }

  predicate TrimmedTexts(p: Param)
  {
    Trimmed(p.name) && (p.value.Some? ==> Trimmed(p.value.value))
  }

  lemma {:induction false} TrimmedSame(p: Param)
    ensures TrimmedParam(p) == p <==> TrimmedTexts(p)
  {
    TrimmedTrim(p.name);
    if p.value.Some? {
      TrimmedTrim(p.value.value);
    }
    hide Trim, Trimmed;
  }

  lemma {:induction false} ParamsFilled(ps: seq<Param>)
    ensures GoodParams(ps) == ps <==> NoEmpty(ps) && forall p | p in ps :: TrimmedTexts(p)
    decreases |ps|
  {
    hide TrimmedParam, TrimmedTexts;
    if ps != [] {
      ParamsFilled(ps[1..]);
      TrimmedSame(ps[0]);
      assert ps == [ps[0]] + ps[1..];
    }
  }

  lemma {:induction false} HeadersFilled(ps: seq<Param>)
    ensures GoodHeaders(ps) == ps <==> NoEmptyValue(ps) && forall p | p in ps :: TrimmedTexts(p)
    decreases |ps|
  {
    hide TrimmedParam, TrimmedTexts;
    if ps != [] {
      HeadersFilled(ps[1..]);
      TrimmedSame(ps[0]);
      assert ps == [ps[0]] + ps[1..];
      FirstValue(ps);
      hide NoEmptyValue;
    }
  }

  lemma {:induction false} FirstValue(ps: seq<Param>)
    requires ps != []
    ensures NoEmptyValue(ps) <==> NoEmptyValue(ps[1..]) && !(ps[0].value == Some("") && |ps| > 1)
  {
    if NoEmptyValue(ps) {
      forall i: nat | i + 1 < |ps[1..]|
        ensures ps[1..][i].value != Some("")
      {
        assert ps[1..][i] == ps[i + 1];
      }
    }
    if NoEmptyValue(ps[1..]) {
      forall i: nat | 0 < i && i + 1 < |ps|
        ensures ps[i].value != Some("")
      {
        assert ps[1..][i - 1] == ps[i];
      }
    }
  }

  /** Parsing a printed URI gives the URI back if and only if its parts are filled. */
  lemma {:induction false} RoundTrip(scan: Scan, u: Url)
    requires ReadsHex(scan) && WellFormed(u) && CStrings(u)
    ensures ToText(u).Some? && (Parse(scan, ToText(u).value) == Done(u) <==> Filled(u))
  {
    hide *;
    PrintedParses(scan, u);
    SameRead(u);
  }

  lemma {:induction false} SameRead(u: Url)
    requires WellFormed(u)
    ensures UserRefused(u) || PlaceRefused(u) || Read(u) != u <==> !Filled(u)
  {
    ParamsFilled(u.params);
    HeadersFilled(u.headers);
    TrimmedTrim(u.host.value);
    if u.port.Some? {
      TrimmedTrim(u.port.value);
    }
    hide Trim, Trimmed, GoodParams, GoodHeaders, NoEmpty, NoEmptyValue, TrimmedTexts, HostOk, PortOk, CString, Clean;
  }

  // ---- other schemes ----

  /** Exactly the schemes that begin with sip, in any case, are taken for sip. */
  lemma {:induction false} SipExactly(s: string)
    ensures SipScheme(s) <==> SipLetters(s)
  {
    SipPrefix(s);
    hide SamePrefix, ToLower;
  }

  lemma {:induction false} SipPrefix(s: string)
    ensures SamePrefix(s, "sip") <==> SipLetters(s)
    ensures SamePrefix(s, "sips") ==> SamePrefix(s, "sip")
  {
    var w, x := "sip", "sips";
    assert w[0] == 's' && w[1] == 'i' && w[2] == 'p' && x[0] == 's' && x[1] == 'i' && x[2] == 'p';
    forall i | 0 <= i < 3 && i < |s|
      ensures ToLower(s)[i] == w[i] <==> s[i] == w[i] || s[i] as int + 32 == w[i] as int
    {
    }
    hide ToLower;
    if SamePrefix(s, w) {
      assert ToLower(s)[0] == w[0] && ToLower(s)[1] == w[1] && ToLower(s)[2] == w[2];
    }
  }

  /** A URI of another scheme is kept as it is, when there are two characters of it. */
  lemma {:induction false} ForeignRead(scan: Scan, scheme: string, other: string)
    requires |scheme| >= 2 && !SipLetters(scheme) && ':' !in scheme && ' ' !in scheme
    ensures var u := EMPTY.(scheme := Some(scheme), other := Some(other));
      && ToText(u) == Some(scheme + ":" + other)
      && Parse(scan, scheme + ":" + other) == if |other| < 2 then Failed(-5) else Done(u)
  {
    hide StrChr, SipScheme;
    var t := scheme + ":" + other;
    SipExactly(scheme);
    assert t[0..|scheme|] == scheme;
    ChrIs(t, 0, |scheme|, ':');
    assert t[|scheme| + 1..] == other;
  }

  /** A URI without a scheme is printed as a sip one. */
  lemma {:induction false} SipByDefault(u: Url)
    requires CStrings(u) && u.scheme == None && u.other == None
    ensures ToText(u) == ToText(u.(scheme := Some("sip")))
  {
    hide Escape, ParamText, HeaderText;
  }

  /** A sip URI of nothing but a place. */
  lemma {:induction false} OnlyPlace(scan: Scan, t: string, scheme: string)
    requires SipLetters(scheme) && ':' !in scheme && ' ' !in scheme && |scheme| < |t|
    requires t[..|scheme|] == scheme && t[|scheme|] == ':' && '@' !in t && '?' !in t && ';' !in t
    ensures Parse(scan, t)
      == match ParsePlace(t, |scheme|, |t|)
         case BadPlace => Failed(-5)
         case Place(host, port) => Done(EMPTY.(scheme := Some(scheme), host := Some(host), port := port))
  {
    hide StrChr, SipScheme, ParsePlace, ParseParams, ParseHeaders;
    var a := |scheme|;
    SipExactly(scheme);
    assert t[0..a] == t[..a] && t[0..] == t;
    ChrIs(t, 0, a, ':');
    ChrNot(t, 0, '@');
    ChrNot(t, a, '?');
    ChrNot(t, a, ';');
  }

  lemma {:induction false} BracketPlace(t: string, a: nat, before: string, inner: string, hasOpen: bool)
    requires a < |t| && t[a] == ':' && '[' !in before && '[' !in inner && ']' !in inner
    requires t[a + 1..] == before + (if hasOpen then "[" else "") + inner + "]"
    ensures ParsePlace(t, a, |t|) == if !hasOpen || inner == "" then BadPlace else Place(Trim(inner), None)
  {
    hide StrChr, BackTo, Trim;
    var u, n := t[a + 1..], |t|;
    assert t[n - 1] == u[|u| - 1] == ']';
    BackIs(t, a, n - 1, ']', ':', n - 1);
    BackIs(t, a, n, ']', ']', n - 1);
    assert t[a..] == ":" + u;
    if hasOpen {
      var open := a + 1 + |before|;
      assert t[a..open] == ":" + before && t[open] == '[' && t[open + 1..n - 1] == inner;
      ChrIs(t, a, open, '[');
    } else {
      ChrNot(t, a, '[');
    }
  }

  /** What stands before the opening bracket of an IPv6 host is passed over; nothing between the brackets, or no opening
      one, is an error. */
  lemma {:induction false} BracketsExactly(scan: Scan, scheme: string, before: string, inner: string, hasOpen: bool)
    requires SipLetters(scheme) && ':' !in scheme && ' ' !in scheme && '[' !in before && '[' !in inner && ']' !in inner
    requires var t := scheme + ":" + (before + (if hasOpen then "[" else "") + inner + "]");
      '@' !in t && '?' !in t && ';' !in t
    ensures Parse(scan, scheme + ":" + (before + (if hasOpen then "[" else "") + inner + "]"))
      == if !hasOpen || inner == "" then Failed(-5)
         else Done(EMPTY.(scheme := Some(scheme), host := Some(Trim(inner))))
  {
    hide Parse, ParsePlace, Trim, SipLetters;
    var tail := before + (if hasOpen then "[" else "") + inner + "]";
    var t := scheme + ":" + tail;
    assert t[..|scheme|] == scheme && t[|scheme| + 1..] == tail;
    OnlyPlace(scan, t, scheme);
    BracketPlace(t, |scheme|, before, inner, hasOpen);
  }

  /** A ';' behind the '?' is an error. */
  lemma {:induction false} LateParams(scan: Scan, scheme: string, host: string, headers: string, params: string)
    requires SipLetters(scheme) && ':' !in scheme && ' ' !in scheme && '?' !in host && ';' !in host && ';' !in headers
    requires '@' !in scheme + ":" + host + "?" + headers + ";" + params
    ensures Parse(scan, scheme + ":" + host + "?" + headers + ";" + params) == Failed(-5)
  {
    hide StrChr, SipScheme, ParsePlace, ParseParams, ParseHeaders;
    var t := scheme + ":" + host + "?" + headers + ";" + params;
    var a, q := |scheme|, |scheme| + 1 + |host|;
    var p := q + 1 + |headers|;
    SipExactly(scheme);
    assert t[0..a] == scheme && t[..a] == scheme && t[0..] == t;
    assert t[a..q] == ":" + host && t[a..p] == ":" + host + "?" + headers;
    assert t[q] == '?' && t[p] == ';';
    ChrIs(t, 0, a, ':');
    ChrNot(t, 0, '@');
    ChrIs(t, a, q, '?');
    ChrIs(t, a, p, ';');
  }

  /** What has no scheme of two characters or more, or a blank in it, is no URI. */
  lemma {:induction false} NoScheme(scan: Scan, s: string)
    ensures s == "" ==> Parse(scan, s) == Failed(-2)
    ensures s != "" && (':' !in s || s[0] == ':' || s[1] == ':') ==> Parse(scan, s) == Failed(-5)
    ensures forall k | 0 <= k < |s| && s[k] == ':' && ':' !in s[..k] && ' ' in s[..k] :: Parse(scan, s) == Failed(-5)
  {
    hide StrChr, SipScheme, ParseUser, ParsePlace, ParseParams, ParseHeaders;
    if s != "" && ':' !in s {
      assert s[0..] == s;
      ChrNot(s, 0, ':');
    }
    forall k | 0 <= k < |s| && s[k] == ':' && ':' !in s[..k]
      ensures StrChr(s, 0, ':') == k
    {
      assert s[0..k] == s[..k];
      ChrIs(s, 0, k, ':');
    }
  }
}
