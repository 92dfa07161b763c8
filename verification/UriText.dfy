/** What osip_uri_parse and osip_uri_to_str of osip_uri.c compute, as functions of the text. */
module UriText {
  import opened Options
  import opened QuotedText
  import opened OsipText
  import opened UriEscape

  /** A parameter, or a header, whose value is always there. */
  datatype Param = Param(name: string, value: Option<string>)

  /** osip_uri_t; other is the text of a scheme that is not sip. */
  datatype Url = Url(
    scheme: Option<string>, username: Option<string>, password: Option<string>, host: Option<string>,
    port: Option<string>, params: seq<Param>, headers: seq<Param>, other: Option<string>)

  const EMPTY: Url := Url(None, None, None, None, None, [], [], None)

  datatype Parsed = Done(url: Url) | Failed(code: int)

  // ---- printing ----

  /** "%s:%s@" and its shorter forms; nothing without a user. */
  function UserText(u: Url): (r: string)
    requires (u.username.Some? ==> CString(u.username.value)) && (u.password.Some? ==> CString(u.password.value))
  {
    if u.username == None then ""
    else
      Escape(u.username.value, USER_SET)
      + (if u.password == None then "" else ":" + Escape(u.password.value, PASSWORD_SET))
      + "@"
  }

  /** A host with a colon is an IPv6 address and goes into brackets. */
  function HostText(host: string): (r: string)
  {
    if ':' in host then "[" + host + "]" else host
  }

  function PortText(port: Option<string>): (r: string)
  {
    if port == None then "" else ":" + port.value
  }

  predicate Clean(p: Param)
  {
    CString(p.name) && (p.value.Some? ==> CString(p.value.value))
  }

  function ParamText(p: Param): (r: string)
    requires Clean(p)
  {
    ";" + Escape(p.name, PARAM_SET) + if p.value == None then "" else "=" + Escape(p.value.value, PARAM_SET)
  }

  function ParamsText(ps: seq<Param>): (r: string)
    requires forall p | p in ps :: Clean(p)
  {
    if ps == [] then "" else ParamText(ps[0]) + ParamsText(ps[1..])
  }

  function HeaderText(p: Param): (r: string)
    requires Clean(p) && p.value.Some?
  {
    Escape(p.name, HEADER_SET) + "=" + Escape(p.value.value, HEADER_SET)
  }

  /** The headers, the first after mark, the others after '&'. */
  function HeadersText(ps: seq<Param>, mark: char): (r: string)
    requires forall p | p in ps :: Clean(p) && p.value.Some?
  {
    if ps == [] then "" else [mark] + HeaderText(ps[0]) + HeadersText(ps[1..], '&')
  }

  predicate CStrings(u: Url)
  {
    && (u.username.Some? ==> CString(u.username.value)) && (u.password.Some? ==> CString(u.password.value))
    && (forall p | p in u.params :: Clean(p)) && (forall p | p in u.headers :: Clean(p) && p.value.Some?)
  }

  /** osip_uri_to_str; None where it returns OSIP_BADPARAMETER. */
  function ToText(u: Url): (r: Option<string>)
    requires CStrings(u)
  {
    if u.host == None && u.other == None then None
    else if u.scheme == None && u.other.Some? then None
    else
      var scheme := if u.scheme.Some? then u.scheme.value else "sip";
      if u.other.Some? then Some(scheme + ":" + u.other.value)
      else
        Some(scheme + ":" + UserText(u) + HostText(u.host.value) + PortText(u.port)
             + ParamsText(u.params) + HeadersText(u.headers, '?'))
  }

  // ---- parsing ----

  /** next_separator: the first c from a position on, when it comes before the first stop. */
  function NextBefore(s: string, from: nat, c: char, stop: char): (r: int)
    requires from <= |s|
    ensures r == -1 || (from <= r < |s| && s[r] == c)
  {
    var ind, tmp := StrChr(s, from, c), StrChr(s, from, stop);
    if ind != -1 && (tmp == -1 || ind < tmp) then ind else -1
  }

  /** A list and a return code; what was added before an error stays added. */
  datatype Listed = Listed(items: seq<Param>, code: int)

  function More(p: Param, rest: Listed): (r: Listed)
  {
    rest.(items := [p] + rest.items)
  }

  /** osip_uri_param_set trims both texts. */
  function Unescaped(scan: Scan, s: string): (r: string)
  {
    Trim(Unescape(scan, s))
  }

  /** The parameter between two positions: its name, and its value when there is a '='. */
  function ParamAt(scan: Scan, s: string, from: nat, equal: int, end: nat): (r: Param)
    requires from <= end <= |s| && (equal == -1 || from <= equal < end)
  {
    if equal == -1 then Param(Unescaped(scan, s[from..end]), None)
    else Param(Unescaped(scan, s[from..equal]), Some(Unescaped(scan, s[equal + 1..end])))
  }

  /** osip_uri_parse_params on a text that starts with ';'. */
  function ParseParams(scan: Scan, p: string): (r: Listed)
    requires p != ""
    decreases |p|
  {
    var comma := StrChr(p, 1, ';');
    var end: nat := if comma == -1 then |p| else comma;
    var equal := NextBefore(p, 1, '=', ';');
    if equal != -1 && end - equal < 2 then Listed([], OSIP_SYNTAXERROR)
    else if (if equal == -1 then end else equal) < 2 then Listed([], OSIP_SYNTAXERROR)
    else
      var param := ParamAt(scan, p, 1, equal, end);
      if comma == -1 then Listed([param], OSIP_SUCCESS) else More(param, ParseParams(scan, p[comma..]))
  }

  /** osip_uri_parse_headers on a text that starts with '?' or '&'. */
  function ParseHeaders(scan: Scan, h: string): (r: Listed)
    requires h != "" && h[0] != '='
    decreases |h|
  {
    var equal, next := StrChr(h, 0, '='), StrChr(h, 1, '&');
    if equal == -1 then Listed([], OSIP_SYNTAXERROR)
    else if next != -1 && next - equal < 2 then Listed([], OSIP_SYNTAXERROR)
    else
      var end: nat := if next == -1 then |h| else next;
      var header := ParamAt(scan, h, 1, equal, end);
      if next == -1 then Listed([header], OSIP_SUCCESS) else More(header, ParseHeaders(scan, h[next..]))
  }

  predicate SamePrefix(s: string, w: string)
  {
    |s| >= |w| && forall i | 0 <= i < |w| :: ToLower(s)[i] == w[i]
  }

  predicate SipScheme(scheme: string)
  {
    |scheme| >= 3 && (SamePrefix(scheme, "sip") || SamePrefix(scheme, "sips"))
  }

  /** The last position in (host, from] with one of two characters, or host. */
  function BackTo(s: string, host: nat, from: nat, c: char, d: char): (r: nat)
    requires host <= from <= |s|
    ensures host <= r <= from
    ensures r == host || (r < |s| && (s[r] == c || s[r] == d))
    ensures forall k | r < k <= from && k < |s| :: s[k] != c && s[k] != d
  {
    if from == host || (from < |s| && (s[from] == c || s[from] == d)) then from else BackTo(s, host, from - 1, c, d)
  }

  /** The user part: where the host begins (at the mark before it), the user and the password. */
  datatype User = User(host: nat, username: Option<string>, password: Option<string>) | BadUser

  function ParseUser(scan: Scan, s: string, colon: nat): (r: User)
    requires colon < |s| && s[colon] == ':'
    ensures r.User? ==> r.host < |s| && (s[r.host] == ':' || s[r.host] == '@')
  {
    var at := StrChr(s, 0, '@');
    if at == -1 then User(colon, None, None)
    else if colon + 1 < |s| && s[colon + 1] == '@' then User(colon + 1, None, None)
    else
      var pass := NextBefore(s, colon + 1, ':', '@');
      if pass != -1 && at - pass < 2 then BadUser
      else
        var end := if pass == -1 then at else pass;
        if end - colon < 2 then BadUser
        else
          User(at, Some(Unescape(scan, s[colon + 1..end])),
               if pass == -1 then None else Some(Unescape(scan, s[pass + 1..at])))
  }

  /** Host and port between the host mark and the parameters. */
  datatype Place = Place(host: string, port: Option<string>) | BadPlace

  function ParsePlace(s: string, host: nat, params: nat): (r: Place)
    requires host < params <= |s| && (s[host] == ':' || s[host] == '@')
  {
    var mark := BackTo(s, host, params - 1, ']', ':');
    var hasPort := s[mark] == ':' && mark != host;
    if hasPort && (params - mark < 2 || params - mark > 8) then BadPlace
    else
      var port := if hasPort then Some(Trim(s[mark + 1..params])) else None;
      var end0 := if hasPort then mark else params;
      var bracket := BackTo(s, host, end0, ']', ']');
      if bracket < |s| && s[bracket] == ']' then
        // an IPv6 address: from the first '[' on
        var open := StrChr(s, host, '[');
        if open == -1 || open >= bracket then BadPlace
        else if bracket - open < 2 then BadPlace
        else Place(Trim(s[open + 1..bracket]), port)
      else if end0 - host < 2 then BadPlace
      else Place(Trim(s[host + 1..end0]), port)
  }

  /** osip_uri_parse. */
  function Parse(scan: Scan, s: string): (r: Parsed)
  {
    if s == "" then Failed(OSIP_BADPARAMETER)
    else
      var colon := StrChr(s, 0, ':');
      if colon == -1 || colon < 2 then Failed(OSIP_SYNTAXERROR)
      else
        var scheme := s[..colon];
        if ' ' in scheme then Failed(OSIP_SYNTAXERROR)
        else if !SipScheme(scheme) then
          if |s| - colon - 1 < 2 then Failed(OSIP_SYNTAXERROR)
          else Done(EMPTY.(scheme := Some(scheme), other := Some(s[colon + 1..])))
        else
          match ParseUser(scan, s, colon)
          case BadUser => Failed(OSIP_SYNTAXERROR)
          case User(host, username, password) =>
            var question, semicolon := StrChr(s, host, '?'), StrChr(s, host, ';');
            var headersAt: nat := if question == -1 then |s| else question;
            var paramsAt: nat := if semicolon == -1 then headersAt else semicolon;
            if semicolon != -1 && headersAt - paramsAt + 1 < 2 then Failed(OSIP_SYNTAXERROR)
            else
              match ParsePlace(s, host, paramsAt)
              case BadPlace => Failed(OSIP_SYNTAXERROR)
              case Place(name, port) =>
                Done(Url(Some(scheme), username, password, Some(name), port,
                         if semicolon == -1 then [] else ParseParams(scan, s[paramsAt..headersAt]).items,
                         if question == -1 then [] else ParseHeaders(scan, s[headersAt..]).items,
                         None))
  }

  // ---- one turn of each loop ----

  lemma {:induction false} ParamsUnfold(scan: Scan, p: string, comma: int, equal: int)
    requires p != "" && comma == StrChr(p, 1, ';') && equal == NextBefore(p, 1, '=', ';')
    ensures var end: nat := if comma == -1 then |p| else comma;
      ParseParams(scan, p) ==
      if equal != -1 && end - equal < 2 then Listed([], OSIP_SYNTAXERROR)
      else if (if equal == -1 then end else equal) < 2 then Listed([], OSIP_SYNTAXERROR)
      else
        var param := ParamAt(scan, p, 1, equal, end);
        if comma == -1 then Listed([param], OSIP_SUCCESS) else More(param, ParseParams(scan, p[comma..]))
  {
    hide StrChr, NextBefore, ParamAt;
  }

  lemma {:induction false} HeadersUnfold(scan: Scan, h: string, equal: int, next: int)
    requires h != "" && h[0] != '=' && equal == StrChr(h, 0, '=') && next == StrChr(h, 1, '&')
    ensures var end: nat := if next == -1 then |h| else next;
      ParseHeaders(scan, h) ==
      if equal == -1 then Listed([], OSIP_SYNTAXERROR)
      else if next != -1 && next - equal < 2 then Listed([], OSIP_SYNTAXERROR)
      else
        var header := ParamAt(scan, h, 1, equal, end);
        if next == -1 then Listed([header], OSIP_SUCCESS) else More(header, ParseHeaders(scan, h[next..]))
  {
    hide StrChr, Unescaped;
  }
}
