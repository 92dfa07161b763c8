/** Percent escapes of SIP URIs: __osip_uri_escape_nonascii_and_nondef and __osip_uri_unescape of osip_uri.c. */
module UriEscape {
  import Unicode

  /** The characters an escape function leaves alone besides letters and digits. */
  const USER_SET: string := "-_.!~*'()&=+$,;?/"
  const PASSWORD_SET: string := "-_.!~*'()&=+$,"
  const PARAM_SET: string := "-_.!~*'()[]/:&+$"
  const HEADER_SET: string := "-_.!~*'()[]/?:+$"

  /** A C character as an unsigned char. */
  predicate ByteChar(c: char)
  {
    0 < c as int < 256
  }

  /** A C string: no terminator inside. */
  predicate CString(s: string)
  {
    forall c | c in s :: ByteChar(c)
  }

  predicate AlphaNum(c: char)
  {
    'a' <= c <= 'z' || 'A' <= c <= 'Z' || '0' <= c <= '9'
  }

  predicate Kept(c: char, def: string)
  {
    AlphaNum(c) || c in def
  }

  function HexUpper(v: nat): (r: char)
    requires v < 16
  {
    if v < 10 then '0' + v as char else 'A' + (v - 10) as char
  }

  function EscapeChar(c: char, def: string): (r: string)
    requires ByteChar(c)
  {
    if Kept(c, def) then [c] else ['%', HexUpper(c as int / 16), HexUpper(c as int % 16)]
  }

  function Escape(s: string, def: string): (r: string)
    requires CString(s)
    ensures |s| <= |r| <= 3 * |s|
    decreases |s|
  {
    if s == "" then "" else EscapeChar(s[0], def) + Escape(s[1..], def)
  }

  predicate HexDigit(c: char)
  {
    '0' <= c <= '9' || 'a' <= c <= 'f' || 'A' <= c <= 'F'
  }

  function HexValue(c: char): (r: nat)
    requires HexDigit(c)
    ensures r < 16
  {
    if '0' <= c <= '9' then c as int - '0' as int
    else if 'a' <= c <= 'f' then c as int - 'a' as int + 10
    else c as int - 'A' as int + 10
  }

  /** sscanf with "%02X": the value read at the start of a text, or -1. */
  type Scan = string -> int

  /** Two hexadecimal digits are read as their value; what else sscanf accepts is left open. */
  ghost predicate ReadsHex(scan: Scan)
  {
    forall t: string | |t| >= 2 && HexDigit(t[0]) && HexDigit(t[1]) :: scan(t) == HexValue(t[0]) * 16 + HexValue(t[1])
  }

  function Unescape(scan: Scan, s: string): (r: string)
    ensures |r| <= |s|
    decreases |s|
  {
    if s == "" then ""
    else if s[0] != '%' then [s[0]] + Unescape(scan, s[1..])
    else if |s| > 2 && scan(s[1..]) >= 0 then
      [(scan(s[1..]) % 256) as char] + Unescape(scan, s[if HexDigit(s[2]) then 3 else 2..])
    else ""
  }

  /** The characters a SIP URI may hold unescaped, by section 25.1 of RFC 3261. */
  predicate Unreserved(c: char)
  {
    || 'a' <= c <= 'z' || 'A' <= c <= 'Z' || '0' <= c <= '9'
    || c == '-' || c == '_' || c == '.' || c == '!' || c == '~' || c == '*' || c == '\'' || c == '(' || c == ')'
  }

  /** Each set lets through what the grammar has for its part: user-unreserved, the characters of a password,
      param-unreserved and hnv-unreserved. */
  lemma {:induction false} SetsAreGrammar(c: char)
    ensures Kept(c, USER_SET) <==>
      || Unreserved(c)
      || c == '&' || c == '=' || c == '+' || c == '$' || c == ',' || c == ';' || c == '?' || c == '/'
    ensures Kept(c, PASSWORD_SET) <==>
      Unreserved(c) || c == '&' || c == '=' || c == '+' || c == '$' || c == ','
    ensures Kept(c, PARAM_SET) <==>
      Unreserved(c) || c == '[' || c == ']' || c == '/' || c == ':' || c == '&' || c == '+' || c == '$'
    ensures Kept(c, HEADER_SET) <==>
      Unreserved(c) || c == '[' || c == ']' || c == '/' || c == '?' || c == ':' || c == '+' || c == '$'
  {
    InSet(c, USER_SET);
    InSet(c, PASSWORD_SET);
    InSet(c, PARAM_SET);
    InSet(c, HEADER_SET);
  }

  lemma {:induction false} InSet(c: char, def: string)
    ensures c in def <==> exists i | 0 <= i < |def| :: def[i] == c
  {
  }

  /** What is let through stays as it is; anything else is a '%' and its two digits, the high one first. */
  lemma {:induction false} EscapeWrites(s: string, def: string)
    requires CString(s)
    ensures (forall c | c in s :: Kept(c, def)) ==> Escape(s, def) == s
    ensures |s| == 1 && !Kept(s[0], def) ==>
      Escape(s, def) == ['%', "0123456789ABCDEF"[s[0] as int / 16], "0123456789ABCDEF"[s[0] as int % 16]]
    decreases |s|
  {
    hide Kept;
    if s != "" {
      assert ByteChar(s[0]);
      HexIs(s[0] as int / 16);
      HexIs(s[0] as int % 16);
      EscapeWrites(s[1..], def);
      if forall c | c in s :: Kept(c, def) {
        assert s == [s[0]] + s[1..];
      }
      hide HexUpper;
    }
  }

  /** The digits are those of the two alphabets. */
  lemma {:induction false} HexIs(v: nat)
    requires v < 16
    ensures HexUpper(v) == "0123456789ABCDEF"[v]
    ensures forall c: char ::
      c == "0123456789ABCDEF"[v] || c == "0123456789abcdef"[v] <==> HexDigit(c) && HexValue(c) == v
  {
    Unicode.Alphabet(v);
  }

  lemma {:induction false} HexRound(v: nat)
    requires v < 16
    ensures HexDigit(HexUpper(v)) && HexValue(HexUpper(v)) == v && AlphaNum(HexUpper(v))
  {
  }

  lemma {:induction false} UnescapeOne(scan: Scan, c: char, def: string, rest: string)
    requires ReadsHex(scan) && ByteChar(c) && '%' !in def
    ensures Unescape(scan, EscapeChar(c, def) + rest) == [c] + Unescape(scan, rest)
  {
    var t := EscapeChar(c, def) + rest;
    if Kept(c, def) {
      assert t[1..] == rest;
    } else {
      var high, low := c as int / 16, c as int % 16;
      HexRound(high);
      HexRound(low);
      hide HexUpper, HexDigit, HexValue;
      assert t[1..] == [HexUpper(high), HexUpper(low)] + rest;
      assert scan(t[1..]) == c as int;
      assert t[3..] == rest;
    }
  }

  /** Unescaping undoes escaping, for every set that lets no '%' through. */
  lemma {:induction false} UnescapeEscape(scan: Scan, s: string, def: string)
    requires ReadsHex(scan) && CString(s) && '%' !in def
    ensures Unescape(scan, Escape(s, def)) == s
    decreases |s|
  {
    hide EscapeChar, Unescape;
    if s == "" {
      UnescapeNone(scan);
    } else {
      UnescapeEscape(scan, s[1..], def);
      UnescapeOne(scan, s[0], def, Escape(s[1..], def));
    }
  }

  lemma {:induction false} UnescapeNone(scan: Scan)
    ensures Unescape(scan, "") == ""
  {
  }

  /** A character outside the set and no letter, digit or '%' does not occur in escaped text. */
  lemma {:induction false} EscapedAvoids(s: string, def: string, c: char)
    requires CString(s) && !Kept(c, def) && c != '%'
    ensures c !in Escape(s, def)
    decreases |s|
  {
    if s != "" {
      EscapedAvoids(s[1..], def, c);
      assert ByteChar(s[0]);
      HexRound(s[0] as int / 16);
      HexRound(s[0] as int % 16);
      hide HexUpper;
    }
  }

  // ---- in place ----

  /** strlen of a terminated buffer. */
  predicate Terminated(a: array<char>, n: nat)
    reads a
  {
    n < a.Length && a[n] == '\0' && forall i | 0 <= i < n :: a[i] != '\0'
  }

  /** __osip_uri_unescape: the text is rewritten in its own buffer and terminated again. */
  method UnescapeInPlace(scan: Scan, a: array<char>, n: nat) returns (index: nat)
    requires Terminated(a, n)
    modifies a
    ensures index <= n && a[..index] == Unescape(scan, old(a[..n])) && a[index] == '\0'
  {
    hide HexDigit, Unescape;
    ghost var s := a[..n];
    index := 0;
    var ptr := 0;
    var alloc := n + 1;
    alloc := alloc - 1;
    while alloc > 0
      invariant 0 <= index <= ptr <= n && alloc == n - ptr
      invariant a[ptr..n] == s[ptr..] && a[n] == '\0'
      invariant Unescape(scan, s) == a[..index] + Unescape(scan, s[ptr..])
      decreases alloc
    {
      ghost var before := a[..index];
      UnescapeStep(scan, s, ptr);
      assert a[ptr] == a[ptr..n][0] == s[ptr..][0];
      assert a[ptr + 1..n] == a[ptr..n][1..] == s[ptr..][1..] == s[ptr + 1..];
      var c := a[ptr];
      if c == '%' {
        if alloc > 2 && scan(a[ptr + 1..n]) >= 0 {
          assert a[ptr + 2] == a[ptr..n][2] == s[ptr..][2];
          c := (scan(a[ptr + 1..n]) % 256) as char;
          if HexDigit(a[ptr + 2]) {
            alloc := alloc - 2;
            ptr := ptr + 2;
          } else {
            alloc := alloc - 1;
            ptr := ptr + 1;
          }
        } else {
          break;
        }
      }
      a[index] := c;
      index := index + 1;
      ptr := ptr + 1;
      alloc := alloc - 1;
      assert a[..index] == before + [c];
      assert a[ptr..n] == s[ptr..];
      Onward(scan, s, before, c, ptr);
    }
    if alloc == 0 {
      assert s[ptr..] == "";
      UnescapeNone(scan);
    }
    a[index] := '\0';
  }

  lemma {:induction false} Onward(scan: Scan, s: string, before: string, c: char, p: nat)
    requires p <= |s|
    ensures before + ([c] + Unescape(scan, s[p..])) == before + [c] + Unescape(scan, s[p..])
  {
  }

  lemma {:induction false} UnescapeStep(scan: Scan, s: string, p: nat)
    requires p < |s|
    ensures Unescape(scan, s[p..]) ==
      if s[p] != '%' then [s[p]] + Unescape(scan, s[p + 1..])
      else if |s| - p > 2 && scan(s[p + 1..]) >= 0 then
        [(scan(s[p + 1..]) % 256) as char] + Unescape(scan, s[p + if HexDigit(s[p + 2]) then 3 else 2..])
      else ""
  {
    assert s[p..][1..] == s[p + 1..];
    if |s| - p > 2 {
      assert s[p..][2..] == s[p + 2..] && s[p..][3..] == s[p + 3..];
    }
  }

  /** __osip_uri_escape_nonascii_and_nondef: the new buffer is doubled whenever another escape might not fit, and every
      write, terminators included, stays inside it. */
  method EscapeNew(s: string, def: string) returns (ns: array<char>, ghost n: nat)
    requires CString(s)
    ensures fresh(ns) && n < ns.Length && ns[..n] == Escape(s, def) && ns[n] == '\0'
  {
    hide Escape, EscapeChar, Kept;
    var alloc := |s| + 1;
    ns := new char[alloc];
    var newlen := alloc;
    var index := 0;
    var i := 0;
    while i < |s|
      invariant 0 <= i <= |s| && fresh(ns) && ns.Length == alloc
      invariant |s| + 1 <= newlen <= alloc && index + (|s| - i) + 1 == newlen
      invariant Escape(s, def) == ns[..index] + Escape(s[i..], def)
    {
      assert ByteChar(s[i]);
      EscapeStep(s, i, def);
      ghost var before := ns[..index];
      ns, alloc, newlen, index := PutChar(ns, alloc, newlen, index, s[i], def);
      Further(before, EscapeChar(s[i], def), Escape(s[i + 1..], def));
      i := i + 1;
    }
    EscapeNone(s, i, def);
    ns[index] := '\0';
    n := index;
  }

  /** One turn of its loop: a character as it is, or its escape in a buffer that may have to be doubled. */
  method PutChar(ns0: array<char>, alloc0: nat, newlen0: nat, index0: nat, c: char, def: string)
    returns (ns: array<char>, alloc: nat, newlen: nat, index: nat)
    requires ns0.Length == alloc0 && index0 + 2 <= newlen0 <= alloc0 && ByteChar(c)
    modifies ns0
    ensures (ns == ns0 || fresh(ns)) && ns.Length == alloc && newlen0 <= newlen <= alloc
    ensures newlen - newlen0 == |EscapeChar(c, def)| - 1 && index == index0 + |EscapeChar(c, def)|
    ensures ns[..index] == old(ns0[..index0]) + EscapeChar(c, def)
  {
    hide AlphaNum, HexUpper;
    ns, alloc, newlen, index := ns0, alloc0, newlen0, index0;
    if !Kept(c, def) {
      newlen := newlen + 2;
      if newlen > alloc {
        alloc := alloc * 2;
        ns := Realloc(ns, alloc, index);
      }
      PutEscape(ns, index, c);
      index := index + 3;
    } else {
      ns[index] := c;
      index := index + 1;
    }
  }

  lemma {:induction false} Further(before: string, escape: string, rest: string)
    ensures before + escape + rest == before + (escape + rest)
  {
  }

  /** sprintf with "%%%02X" and its terminator. */
  method PutEscape(ns: array<char>, index: nat, c: char)
    requires index + 4 <= ns.Length && ByteChar(c)
    modifies ns
    ensures ns[..index + 3] == old(ns[..index]) + ['%', HexUpper(c as int / 16), HexUpper(c as int % 16)]
  {
    ns[index], ns[index + 1], ns[index + 2] := '%', HexUpper(c as int / 16), HexUpper(c as int % 16);
    ns[index + 3] := '\0';
  }

  lemma {:induction false} EscapeNone(s: string, i: nat, def: string)
    requires i == |s|
    ensures Escape(s[i..], def) == ""
  {
  }

  lemma {:induction false} EscapeStep(s: string, i: nat, def: string)
    requires i < |s| && CString(s)
    ensures CString(s[i..]) && CString(s[i + 1..])
    ensures Escape(s[i..], def) == EscapeChar(s[i], def) + Escape(s[i + 1..], def)
  {
    assert s[i..][1..] == s[i + 1..];
  }

  method Realloc(a: array<char>, size: nat, used: nat) returns (b: array<char>)
    requires used <= a.Length <= size
    ensures fresh(b) && b.Length == size && b[..used] == a[..used]
  {
    b := new char[size];
    forall i | 0 <= i < a.Length {
      b[i] := a[i];
    }
  }
}
