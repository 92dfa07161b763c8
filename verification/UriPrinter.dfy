/** osip_uri_to_str of osip_uri.c as it runs: every sprintf goes into a buffer whose size was counted beforehand. */
module UriPrinter {
  import opened Options
  import opened OsipText
  import opened UriEscape
  import opened UriText
  import opened UriParser

  /** sprintf at the end of a buffer of len characters, terminator included. */
  method Sprintf(buf: string, len: nat, text: string) returns (r: string)
    requires |buf| + |text| + 1 <= len
    ensures r == buf + text
  {
    r := buf + text;
  }

  /** The size allocated before the parameters and headers are known; every character may become three. */
  function FirstSize(u: Url, scheme: string): (r: nat)
    requires u.host.Some?
  {
    |scheme| + 1 + |u.host.value| + 5 + UserRoom(u) + if u.port.Some? then |u.port.value| + 3 else 0
  }

  function UserRoom(u: Url): (r: nat)
  {
    (if u.username.Some? then |u.username.value| * 3 + 1 else 0)
    + if u.password.Some? then |u.password.value| * 3 + 1 else 0
  }

  /** The user and the password. */
  method PrintUser(u: Url, buf0: string, len: nat) returns (buf: string)
    requires CStrings(u) && |buf0| + UserRoom(u) + 1 <= len
    ensures buf == buf0 + UserText(u) && |buf| <= |buf0| + UserRoom(u)
  {
    hide Escape;
    buf := buf0;
    if u.username.Some? {
      var tmp2 := Escape(u.username.value, USER_SET);
      buf := Sprintf(buf, len, tmp2);
    }
    if u.password.Some? && u.username.Some? {
      var tmp2 := Escape(u.password.value, PASSWORD_SET);
      buf := Sprintf(buf, len, ":" + tmp2);
    }
    if u.username.Some? {
      buf := Sprintf(buf, len, "@");
    }
    assert buf == buf0 + UserText(u);
  }

  /** Scheme, user, host and port. */
  method PrintPlace(u: Url, scheme: string) returns (buf: string, len: nat)
    requires CStrings(u) && u.host.Some?
    ensures buf == scheme + ":" + UserText(u) + HostText(u.host.value) + PortText(u.port)
    ensures |buf| + 1 <= len
  {
    hide Escape, UserText, UserRoom, CStrings;
    len := FirstSize(u, scheme);
    buf := Sprintf("", len, scheme + ":");
    assert buf == scheme + ":";
    buf := PrintUser(u, buf, len);
    buf := PrintHost(u.host.value, u.port, buf, len);
  }

  /** The host, in brackets when it has a colon, and the port. */
  method PrintHost(host: string, port: Option<string>, buf0: string, len: nat) returns (buf: string)
    requires |buf0| + |host| + 5 + (if port.Some? then |port.value| + 3 else 0) <= len
    ensures buf == buf0 + HostText(host) + PortText(port) && |buf| + 1 <= len
  {
    if ':' in host {
      buf := Sprintf(buf0, len, "[" + host + "]");
    } else {
      buf := Sprintf(buf0, len, host);
    }
    assert buf == buf0 + HostText(host);
    if port.Some? {
      buf := Sprintf(buf, len, ":" + port.value);
    }
  }

  /** What is printed, and what is still to come. */
  ghost predicate Printed(whole: string, buf: string, params: seq<Param>, headers: seq<Param>, mark: char)
    requires (forall p | p in params :: Clean(p)) && (forall p | p in headers :: Clean(p) && p.value.Some?)
  {
    whole == buf + ParamsText(params) + HeadersText(headers, mark)
  }

  lemma {:induction false} ParamPrinted(whole: string, buf: string, ps: seq<Param>, hs: seq<Param>, mark: char)
    requires (forall p | p in ps :: Clean(p)) && (forall p | p in hs :: Clean(p) && p.value.Some?)
    requires ps != [] && Printed(whole, buf, ps, hs, mark)
    ensures Printed(whole, buf + ParamText(ps[0]), ps[1..], hs, mark)
  {
    hide ParamText, HeadersText;
    Regroup(buf, ParamText(ps[0]), ParamsText(ps[1..]));
  }

  lemma {:induction false} HeaderPrinted(whole: string, buf: string, hs: seq<Param>, mark: char)
    requires (forall p | p in hs :: Clean(p) && p.value.Some?) && hs != [] && Printed(whole, buf, [], hs, mark)
    ensures Printed(whole, buf + ([mark] + HeaderText(hs[0])), [], hs[1..], '&')
  {
    hide HeaderText;
    Regroup(buf, [mark] + HeaderText(hs[0]), HeadersText(hs[1..], '&'));
    assert buf + ParamsText([]) == buf;
    assert buf + ([mark] + HeaderText(hs[0])) + ParamsText([]) == buf + ([mark] + HeaderText(hs[0]));
  }

  lemma {:induction false} Regroup(a: string, b: string, c: string)
    ensures a + (b + c) == a + b + c
  {
  }

  /** The loop over the parameters: the buffer grows by what each needs. */
  method PrintParams(params: seq<Param>, buf0: string, len0: nat) returns (buf: string, len: nat)
    requires (forall p | p in params :: Clean(p)) && |buf0| + 1 <= len0
    ensures buf == buf0 + ParamsText(params) && |buf| + 1 <= len
  {
    hide Escape, Printed;
    buf, len := buf0, len0;
    ghost var whole := buf0 + ParamsText(params);
    PrintedStart(buf0, params, []);
    var pos := 0;
    assert params[0..] == params;
    while pos < |params|
      invariant 0 <= pos <= |params| && |buf| + 1 <= len && Printed(whole, buf, params[pos..], [], '?')
    {
      var p := params[pos];
      assert p in params && Clean(p);
      assert params[pos..][0] == p && params[pos..][1..] == params[pos + 1..];
      ParamPrinted(whole, buf, params[pos..], [], '?');
      var tmp1 := Escape(p.name, PARAM_SET);
      if p.value == None {
        len := len + |tmp1| + 2;
        buf := Sprintf(buf, len, ";" + tmp1);
      } else {
        var tmp2 := Escape(p.value.value, PARAM_SET);
        len := len + |tmp1| + |tmp2| + 3;
        buf := Sprintf(buf, len, ";" + tmp1 + "=" + tmp2);
      }
      OneParam(p);
      pos := pos + 1;
    }
    PrintedEnd(whole, buf, params[pos..], [], '?');
  }

  lemma {:induction false} OneParam(p: Param)
    requires Clean(p)
    ensures ParamText(p) ==
      if p.value == None then ";" + Escape(p.name, PARAM_SET)
      else ";" + Escape(p.name, PARAM_SET) + "=" + Escape(p.value.value, PARAM_SET)
  {
    hide Escape;
  }

  lemma {:induction false} PrintedStart(buf: string, ps: seq<Param>, hs: seq<Param>)
    requires (forall p | p in ps :: Clean(p)) && (forall p | p in hs :: Clean(p) && p.value.Some?)
    ensures hs == [] ==> Printed(buf + ParamsText(ps), buf, ps, hs, '?')
    ensures ps == [] ==> Printed(buf + HeadersText(hs, '?'), buf, ps, hs, '?')
  {
  }

  lemma {:induction false} PrintedEnd(whole: string, buf: string, ps: seq<Param>, hs: seq<Param>, mark: char)
    requires ps == [] && hs == [] && Printed(whole, buf, ps, hs, mark)
    ensures whole == buf
  {
  }

  /** The loop over the headers. */
  method PrintHeaders(headers: seq<Param>, buf0: string, len0: nat) returns (buf: string, len: nat)
    requires (forall p | p in headers :: Clean(p) && p.value.Some?) && |buf0| + 1 <= len0
    ensures buf == buf0 + HeadersText(headers, '?') && |buf| + 1 <= len
  {
    hide Escape, Printed;
    buf, len := buf0, len0;
    ghost var whole := buf0 + HeadersText(headers, '?');
    PrintedStart(buf0, [], headers);
    var pos := 0;
    assert headers[0..] == headers;
    while pos < |headers|
      invariant 0 <= pos <= |headers| && |buf| + 1 <= len
      invariant Printed(whole, buf, [], headers[pos..], if pos == 0 then '?' else '&')
    {
      var p := headers[pos];
      assert p in headers && Clean(p);
      assert headers[pos..][0] == p && headers[pos..][1..] == headers[pos + 1..];
      HeaderPrinted(whole, buf, headers[pos..], if pos == 0 then '?' else '&');
      var tmp1 := Escape(p.name, HEADER_SET);
      var tmp2 := Escape(p.value.value, HEADER_SET);
      len := len + |tmp1| + |tmp2| + 4;
      OneHeader(p, if pos == 0 then '?' else '&');
      if pos == 0 {
        buf := Sprintf(buf, len, "?" + tmp1 + "=" + tmp2);
      } else {
        buf := Sprintf(buf, len, "&" + tmp1 + "=" + tmp2);
      }
      pos := pos + 1;
    }
    PrintedEnd(whole, buf, [], headers[pos..], if pos == 0 then '?' else '&');
  }

  lemma {:induction false} OneHeader(p: Param, mark: char)
    requires Clean(p) && p.value.Some?
    ensures [mark] + HeaderText(p) == [mark] + Escape(p.name, HEADER_SET) + "=" + Escape(p.value.value, HEADER_SET)
  {
    hide Escape;
  }

  /** osip_uri_to_str. */
  method ToStr(url: OsipUri) returns (code: int, dest: Option<string>)
    requires CStrings(url.Value())
    ensures dest == ToText(url.Value()) && code == if dest == None then OSIP_BADPARAMETER else OSIP_SUCCESS
  {
    hide UserText, HostText, PortText, ParamsText, HeadersText;
    if url.host == None && url.other == None {
      return OSIP_BADPARAMETER, None;
    }
    if url.scheme == None && url.other.Some? {
      return OSIP_BADPARAMETER, None;
    }
    var scheme := if url.other == None && url.scheme == None then "sip" else url.scheme.value;
    if url.other.Some? {
      var buf := Sprintf("", |scheme| + |url.other.value| + 3, scheme + ":");
      assert buf == scheme + ":";
      buf := Sprintf(buf, |scheme| + |url.other.value| + 3, url.other.value);
      return OSIP_SUCCESS, Some(buf);
    }
    var buf, len := PrintPlace(url.Value(), scheme);
    buf, len := PrintParams(url.urlParams, buf, len);
    buf, len := PrintHeaders(url.urlHeaders, buf, len);
    return OSIP_SUCCESS, Some(buf);
  }
}
