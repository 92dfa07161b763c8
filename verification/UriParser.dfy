/** osip_uri.c as it runs: the URI object is filled by loops over the text, and printed into a buffer of counted size.
    */
module UriParser {
  import opened Options
  import opened QuotedText
  import opened OsipText
  import opened UriEscape
  import opened UriText

  /** Searching a suffix is searching from its start. */
  lemma {:induction false} ChrSuffix(s: string, at: nat, from: nat, c: char)
    requires at + from <= |s|
    ensures StrChr(s[at..], from, c) == var r := StrChr(s, at + from, c); if r == -1 then -1 else r - at
    decreases |s| - at - from
  {
    if at + from < |s| {
      assert s[at..][from] == s[at + from];
      if s[at + from] != c {
        ChrSuffix(s, at, from + 1, c);
      }
    }
  }

  lemma {:induction false} SliceSuffix(s: string, at: nat, i: nat, j: nat)
    requires at <= |s| && i <= j <= |s| - at
    ensures s[at..][i..j] == s[at + i..at + j]
  {
  }

  lemma {:induction false} SuffixSuffix(s: string, at: nat, i: nat)
    requires at <= |s| && i <= |s| - at
    ensures s[at..][i..] == s[at + i..]
  {
  }

  function Shifted(r: int, at: nat): (q: int)
  {
    if r == -1 then -1 else r - at
  }

  lemma {:induction false} BeforeSuffix(s: string, at: nat)
    requires at < |s|
    ensures NextBefore(s[at..], 1, '=', ';') == Shifted(NextBefore(s, at + 1, '=', ';'), at)
    ensures StrChr(s[at..], 1, ';') == Shifted(StrChr(s, at + 1, ';'), at)
  {
    ChrSuffix(s, at, 1, ';');
    ChrSuffix(s, at, 1, '=');
    hide StrChr;
  }

  /** One turn of the parameter loop, with positions in the whole text. */
  lemma {:induction false} ParamTurn(scan: Scan, s: string, at: nat)
    requires at < |s|
    ensures var comma := StrChr(s, at + 1, ';');
      var end: nat := if comma == -1 then |s| else comma;
      var equal := NextBefore(s, at + 1, '=', ';');
      ParseParams(scan, s[at..]) ==
      if equal != -1 && end - equal < 2 then Listed([], OSIP_SYNTAXERROR)
      else if (if equal == -1 then end else equal) - at < 2 then Listed([], OSIP_SYNTAXERROR)
      else
        var param := ParamAt(scan, s, at + 1, equal, end);
        if comma == -1 then Listed([param], OSIP_SUCCESS) else More(param, ParseParams(scan, s[comma..]))
  {
    hide ParseParams, StrChr, NextBefore, ParamAt;
    var comma, equal := StrChr(s, at + 1, ';'), NextBefore(s, at + 1, '=', ';');
    var end := if comma == -1 then |s| else comma;
    BeforeSuffix(s, at);
    ParamsUnfold(scan, s[at..], Shifted(comma, at), Shifted(equal, at));
    if (equal == -1 || equal < end) && end - at >= 1 {
      ParamSuffix(scan, s, at, equal, end);
    }
    if comma != -1 {
      SuffixSuffix(s, at, comma - at);
    }
  }

  /** A parameter of a suffix. */
  lemma {:induction false} ParamSuffix(scan: Scan, s: string, at: nat, equal: int, end: nat)
    requires at < end <= |s| && (equal == -1 || at < equal < end)
    ensures ParamAt(scan, s[at..], 1, Shifted(equal, at), end - at) == ParamAt(scan, s, at + 1, equal, end)
  {
    hide Unescaped;
    SliceSuffix(s, at, 1, end - at);
    if equal != -1 {
      SliceSuffix(s, at, 1, equal - at);
      SliceSuffix(s, at, equal + 1 - at, end - at);
    }
  }

  /** One turn of the header loop, with positions in the whole text. */
  lemma {:induction false} HeaderTurn(scan: Scan, s: string, at: nat)
    requires at < |s| && s[at] != '='
    ensures var equal, next := StrChr(s, at, '='), StrChr(s, at + 1, '&');
      var end: nat := if next == -1 then |s| else next;
      ParseHeaders(scan, s[at..]) ==
      if equal == -1 then Listed([], OSIP_SYNTAXERROR)
      else if next != -1 && next - equal < 2 then Listed([], OSIP_SYNTAXERROR)
      else
        var header := ParamAt(scan, s, at + 1, equal, end);
        if next == -1 then Listed([header], OSIP_SUCCESS) else More(header, ParseHeaders(scan, s[next..]))
  {
    hide ParseHeaders, StrChr, ParamAt;
    MarkSuffix(s, at);
    var equal, next := StrChr(s, at, '='), StrChr(s, at + 1, '&');
    HeadersUnfold(scan, s[at..], Shifted(equal, at), Shifted(next, at));
    if equal == -1 {
    } else if next == -1 {
      ParamSuffix(scan, s, at, equal, |s|);
    } else if next - equal >= 2 {
      ParamSuffix(scan, s, at, equal, next);
      SuffixSuffix(s, at, next - at);
    }
  }

  lemma {:induction false} MarkSuffix(s: string, at: nat)
    requires at < |s|
    ensures StrChr(s[at..], 0, '=') == Shifted(StrChr(s, at, '='), at)
    ensures StrChr(s[at..], 1, '&') == Shifted(StrChr(s, at + 1, '&'), at)
  {
    ChrSuffix(s, at, 0, '=');
    ChrSuffix(s, at, 1, '&');
    hide StrChr;
  }

  function Preceded(done: seq<Param>, rest: Listed): (r: Listed)
  {
    rest.(items := done + rest.items)
  }

  lemma {:induction false} PrecededMore(done: seq<Param>, p: Param, rest: Listed)
    ensures Preceded(done, More(p, rest)) == Preceded(done + [p], rest)
    ensures Preceded(done, Listed([p], OSIP_SUCCESS)) == Listed(done + [p], OSIP_SUCCESS)
    ensures Preceded(done, Listed([], OSIP_SYNTAXERROR)) == Listed(done, OSIP_SYNTAXERROR)
  {
    assert done + ([p] + rest.items) == done + [p] + rest.items;
  }

  class OsipUri {
    var scheme: Option<string>
    var username: Option<string>
    var password: Option<string>
    var host: Option<string>
    var port: Option<string>
    var urlParams: seq<Param>
    var urlHeaders: seq<Param>
    var other: Option<string>

    function Value(): (r: Url)
      reads this
    {
      Url(scheme, username, password, host, port, urlParams, urlHeaders, other)
    }

    /** osip_uri_init. */
    constructor ()
      ensures Value() == EMPTY
    {
      scheme, username, password, host, port, other := None, None, None, None, None, None;
      urlParams, urlHeaders := [], [];
    }

    /** osip_uri_parse_params on a text that starts with ';'. */
    method ParseParamList(scan: Scan, params: string) returns (code: int)
      requires params != ""
      modifies `urlParams
      ensures Listed(urlParams, code) == Preceded(old(urlParams), ParseParams(scan, params))
    {
      hide ParseParams, StrChr, NextBefore, Unescaped, Preceded;
      ghost var whole := Preceded(urlParams, ParseParams(scan, params));
      var at := 0;
      assert params[0..] == params;
      var equal := NextBefore(params, 1, '=', ';');
      var comma := StrChr(params, 1, ';');
      while comma != -1
        invariant 0 <= at < |params|
        invariant comma == StrChr(params, at + 1, ';') && equal == NextBefore(params, at + 1, '=', ';')
        invariant whole == Preceded(urlParams, ParseParams(scan, params[at..]))
        decreases |params| - at
      {
        ParamTurn(scan, params, at);
        var pvalue := None;
        if equal == -1 {
          equal := comma;
        } else {
          if comma - equal < 2 {
            PrecededMore(urlParams, Param("", None), Listed([], 0));
            return OSIP_SYNTAXERROR;
          }
          pvalue := Some(Unescaped(scan, params[equal + 1..comma]));
        }
        if equal - at < 2 {
          PrecededMore(urlParams, Param("", None), Listed([], 0));
          return OSIP_SYNTAXERROR;
        }
        var pname := Unescaped(scan, params[at + 1..equal]);
        PrecededMore(urlParams, Param(pname, pvalue), ParseParams(scan, params[comma..]));
        urlParams := urlParams + [Param(pname, pvalue)];
        at := comma;
        equal := NextBefore(params, at + 1, '=', ';');
        comma := StrChr(params, at + 1, ';');
      }
      ParamTurn(scan, params, at);
      var end := |params|;
      var pvalue := None;
      if equal == -1 {
        equal := end;
      } else {
        if end - equal < 2 {
          PrecededMore(urlParams, Param("", None), Listed([], 0));
          return OSIP_SYNTAXERROR;
        }
        pvalue := Some(Unescaped(scan, params[equal + 1..end]));
      }
      if equal - at < 2 {
        PrecededMore(urlParams, Param("", None), Listed([], 0));
        return OSIP_SYNTAXERROR;
      }
      var pname := Unescaped(scan, params[at + 1..equal]);
      PrecededMore(urlParams, Param(pname, pvalue), Listed([], 0));
      urlParams := urlParams + [Param(pname, pvalue)];
      return OSIP_SUCCESS;
    }

    /** osip_uri_parse_headers on a text that starts with '?'. */
    method ParseHeaderList(scan: Scan, headers: string) returns (code: int)
      requires headers != "" && headers[0] != '='
      modifies `urlHeaders
      ensures Listed(urlHeaders, code) == Preceded(old(urlHeaders), ParseHeaders(scan, headers))
    {
      hide ParseHeaders, StrChr, Unescaped, Preceded;
      ghost var whole := Preceded(urlHeaders, ParseHeaders(scan, headers));
      var at := 0;
      assert headers[0..] == headers;
      var equal := StrChr(headers, 0, '=');
      var next := StrChr(headers, 1, '&');
      HeaderTurn(scan, headers, 0);
      if equal == -1 {
        PrecededMore(urlHeaders, Param("", None), Listed([], 0));
        return OSIP_SYNTAXERROR;
      }
      while equal != -1
        invariant 0 <= at < |headers| && headers[at] != '=' && equal != -1
        invariant equal == StrChr(headers, at, '=') && next == StrChr(headers, at + 1, '&')
        invariant whole == Preceded(urlHeaders, ParseHeaders(scan, headers[at..]))
        decreases |headers| - at
      {
        HeaderTurn(scan, headers, at);
        var hname := Unescaped(scan, headers[at + 1..equal]);
        var hvalue;
        if next != -1 {
          if next - equal < 2 {
            PrecededMore(urlHeaders, Param("", None), Listed([], 0));
            return OSIP_SYNTAXERROR;
          }
          hvalue := Unescaped(scan, headers[equal + 1..next]);
        } else {
          assert headers[equal + 1..] == headers[equal + 1..|headers|];
          hvalue := Unescaped(scan, headers[equal + 1..]);
        }
        ghost var rest := if next == -1 then Listed([], 0) else ParseHeaders(scan, headers[next..]);
        PrecededMore(urlHeaders, Param(hname, Some(hvalue)), rest);
        urlHeaders := urlHeaders + [Param(hname, Some(hvalue))];
        if next == -1 {
          return OSIP_SUCCESS;
        }
        at := next;
        HeaderTurn(scan, headers, at);
        equal := StrChr(headers, at, '=');
        next := StrChr(headers, at + 1, '&');
        if equal == -1 {
          PrecededMore(urlHeaders, Param("", None), Listed([], 0));
          return OSIP_SYNTAXERROR;
        }
      }
    }

    /** osip_uri_parse into a fresh object. What a failed parse leaves in it is not said. */
    method Parse(scan: Scan, buf: string) returns (code: int)
      requires Value() == EMPTY
      modifies this
      ensures match UriText.Parse(scan, buf)
        case Done(u) => code == OSIP_SUCCESS && Value() == u
        case Failed(c) => code == c
    {
      hide StrChr, ParseUser, ParsePlace, ParseParams, ParseHeaders, SipScheme, NextBefore;
      if buf == "" {
        return OSIP_BADPARAMETER;
      }
      var colon := StrChr(buf, 0, ':');
      if colon == -1 {
        return OSIP_SYNTAXERROR;
      }
      if colon < 2 {
        return OSIP_SYNTAXERROR;
      }
      scheme := Some(buf[..colon]);
      if ' ' in buf[..colon] {
        return OSIP_SYNTAXERROR;
      }
      if !SipScheme(buf[..colon]) {
        if |buf| - colon - 1 < 2 {
          return OSIP_SYNTAXERROR;
        }
        other := Some(buf[colon + 1..]);
        return OSIP_SUCCESS;
      }
      var at;
      code, at := ParseUserPart(scan, buf, colon);
      if code != OSIP_SUCCESS {
        return;
      }
      var question := StrChr(buf, at, '?');
      var headersAt: nat := |buf|;
      if question != -1 {
        headersAt := question;
        var ignored := ParseHeaderList(scan, buf[headersAt..]);
        PrecededNone(ParseHeaders(scan, buf[headersAt..]));
      }
      var semicolon := StrChr(buf, at, ';');
      var paramsAt := headersAt;
      if semicolon != -1 {
        paramsAt := semicolon;
        if headersAt - paramsAt + 1 < 2 {
          return OSIP_SYNTAXERROR;
        }
        var ignored := ParseParamList(scan, buf[paramsAt..headersAt]);
        PrecededNone(ParseParams(scan, buf[paramsAt..headersAt]));
      }
      code := ParsePlacePart(buf, at, paramsAt);
    }

    /** The user and the password, and the mark before the host. */
    method ParseUserPart(scan: Scan, buf: string, colon: nat) returns (code: int, at: nat)
      requires colon < |buf| && buf[colon] == ':' && username == None && password == None
      modifies `username, `password
      ensures match ParseUser(scan, buf, colon)
        case BadUser => code == OSIP_SYNTAXERROR
        case User(h, name, pass) => code == OSIP_SUCCESS && at == h && username == name && password == pass
    {
      hide StrChr, Unescape;
      at := colon;
      var found := StrChr(buf, 0, '@');
      if found == -1 {
        return OSIP_SUCCESS, at;
      }
      if colon + 1 < |buf| && buf[colon + 1] == '@' {
        return OSIP_SUCCESS, colon + 1;
      }
      at := found;
      var pass := NextBefore(buf, colon + 1, ':', '@');
      if pass == -1 {
        pass := at;
      } else {
        if at - pass < 2 {
          return OSIP_SYNTAXERROR, at;
        }
        password := Some(Unescape(scan, buf[pass + 1..at]));
      }
      if pass - colon < 2 {
        return OSIP_SYNTAXERROR, at;
      }
      username := Some(Unescape(scan, buf[colon + 1..pass]));
      return OSIP_SUCCESS, at;
    }

    /** The port and the host, found backwards from the parameters. */
    method ParsePlacePart(buf: string, host0: nat, params: nat) returns (code: int)
      requires host0 < params <= |buf| && (buf[host0] == ':' || buf[host0] == '@') && port == None
      modifies `host, `port
      ensures match ParsePlace(buf, host0, params)
        case BadPlace => code == OSIP_SYNTAXERROR
        case Place(h, p) => code == OSIP_SUCCESS && host == Some(h) && port == p
    {
      hide StrChr, Trim, BackTo;
      var mark := WalkBack(buf, host0, params - 1, ']', ':');
      var end: nat := params;
      if buf[mark] == ':' && host0 != mark {
        if params - mark < 2 || params - mark > 8 {
          return OSIP_SYNTAXERROR;
        }
        port := Some(Trim(buf[mark + 1..params]));
        end := mark;
      }
      var tmp := WalkBack(buf, host0, end, ']', ']');
      var from: nat := host0;
      if tmp < |buf| && buf[tmp] == ']' {
        end := tmp;
        from := WalkTo(buf, host0, end, '[');
        if from >= end {
          return OSIP_SYNTAXERROR;
        }
      }
      if end - from < 2 {
        return OSIP_SYNTAXERROR;
      }
      host := Some(Trim(buf[from + 1..end]));
      return OSIP_SUCCESS;
    }
  }

  /** The loops that walk back to one of two characters, or to the mark before the host. */
  method WalkBack(s: string, host: nat, from: nat, c: char, d: char) returns (r: nat)
    requires host <= from <= |s|
    ensures r == BackTo(s, host, from, c, d)
  {
    hide BackTo;
    r := from;
    while r > host && (r == |s| || (s[r] != c && s[r] != d))
      invariant host <= r <= from && BackTo(s, host, from, c, d) == BackTo(s, host, r, c, d)
    {
      BackStep(s, host, r, c, d);
      r := r - 1;
    }
    BackStep(s, host, r, c, d);
  }

  /** The loop that walks forward to a character, but no further than end. */
  method WalkTo(s: string, from: nat, end: nat, c: char) returns (r: nat)
    requires from <= end < |s|
    ensures from <= r <= end
    ensures if r < end then StrChr(s, from, c) == r else StrChr(s, from, c) == -1 || StrChr(s, from, c) >= end
  {
    hide StrChr;
    r := from;
    while r < end && s[r] != c
      invariant from <= r <= end && StrChr(s, from, c) == StrChr(s, r, c)
    {
      ChrStep(s, r, c);
      r := r + 1;
    }
    ChrStep(s, r, c);
  }

  lemma {:induction false} PrecededNone(l: Listed)
    ensures Preceded([], l) == l
  {
  }

  lemma {:induction false} BackStep(s: string, host: nat, from: nat, c: char, d: char)
    requires host <= from <= |s|
    ensures BackTo(s, host, from, c, d)
      == if from == host || (from < |s| && (s[from] == c || s[from] == d)) then from
         else BackTo(s, host, from - 1, c, d)
  {
  }

  lemma {:induction false} ChrStep(s: string, from: nat, c: char)
    requires from < |s|
    ensures StrChr(s, from, c) == if s[from] == c then from else StrChr(s, from + 1, c)
  {
  }
}
