/** osip_message_set_multiple_header of osip_message_parse.c: a header line is cut at the commas outside quotes. */
module HeaderSplitter {
  import opened OsipText
  import opened QuotedText

  /** The headers whose commas never separate. */
  const SINGLE: seq<string> := [
    "date", "to", "from", "call-id", "cseq", "subject", "expires", "server", "user-agent", "www-authenticate",
    "authentication-info", "proxy-authenticate", "proxy-authorization", "proxy-authentication-info", "organization",
    "authorization"]

  /** osip_message_set__header on a value: 0, or the error of that header's own parser. */
  type Setter = (string, string) -> int

  /** What a line does: the values stored, in order, and the code returned. */
  datatype Stored = Stored(values: seq<string>, code: int)

  function First(value: string, rest: Stored): (r: Stored)
  {
    rest.(values := [value] + rest.values)
  }

  /** The specification: the line from beg on is cut at its separators; each piece is trimmed and stored. A piece that
      is empty and not the last is an error; a last piece of fewer than two characters is dropped; the first error of
      a setter ends it. */
  function SplitFrom(set_: Setter, name: string, s: string, beg: nat): (r: Stored)
    requires beg <= |s|
    decreases |s| - beg
  {
    var end := NextSeparator(s, beg);
    if end == |s| then
      if |s| - beg < 2 then Stored([], OSIP_SUCCESS)
      else
        var value := Trim(s[beg..]);
        if set_(name, value) != 0 then Stored([], set_(name, value)) else Stored([value], OSIP_SUCCESS)
    else if end == beg then Stored([], OSIP_SYNTAXERROR)
    else
      var value := Trim(s[beg..end]);
      if set_(name, value) != 0 then Stored([], set_(name, value))
      else First(value, SplitFrom(set_, name, s, end + 1))
  }

  /** The whole line: only a line with a comma, under a name that allows it, is cut. */
  function SplitLine(set_: Setter, name: string, s: string): (r: Stored)
  {
    if StrChr(s, 0, ',') == -1 || name in SINGLE then
      if set_(name, s) != 0 then Stored([], set_(name, s)) else Stored([s], OSIP_SUCCESS)
    else SplitFrom(set_, name, s, 0)
  }

  // ---- finding the next separator by quote pairs ----

  /** A pair of quotes with its commas: outside up to q1, inside up to q2, and outside again behind it. */
  ghost predicate Pair(s: string, from: nat, q1: int, q2: int)
  {
    && from <= q1 < q2 < |s| && s[q1] == s[q2] == '"' && ModeAt(s, q2 + 1) == OUTSIDE
    && (forall k | from <= k <= q1 :: !ModeAt(s, k).inside)
    && (forall k | q1 < k <= q2 :: ModeAt(s, k).inside)
  }

  lemma {:induction false} FindPair(s: string, from: nat)
    requires Paired(s) && from <= |s| && ModeAt(s, from) == OUTSIDE
    ensures var q1 := QuoteFrom(s, from, false);
      if q1 == -1 then forall k | from <= k <= |s| :: !ModeAt(s, k).inside
      else QuoteFrom(s, q1 + 1, false) != -1 && Pair(s, from, q1, QuoteFrom(s, q1 + 1, false))
  {
    QuoteTurns(s, from, OUTSIDE);
    var q1 := QuoteFrom(s, from, false);
    if q1 != -1 {
      ClosingQuote(s, q1);
    }
  }

  /** Where the search stands: no separator since lo0, and comma is the next one seen from lo on. */
  ghost predicate Searching(s: string, lo0: nat, lo: nat, comma: int)
  {
    && lo0 <= lo <= |s| && comma == StrChr(s, lo, ',')
    && forall k | lo0 <= k < lo :: !Separator(s, k)
  }

  function OrNone(s: string, k: nat): (r: int)
  {
    if k >= |s| then -1 else k
  }

  /** A comma outside quotes is found. */
  lemma {:induction false} FoundComma(s: string, lo0: nat, lo: nat, comma: int, quiet: nat)
    requires Searching(s, lo0, lo, comma) && lo <= quiet <= |s| && comma <= quiet && (comma == -1 ==> quiet == |s|)
    requires forall k | lo <= k <= quiet :: !ModeAt(s, k).inside
    ensures comma == OrNone(s, NextSeparator(s, lo0))
  {
    hide ModeAt, StrChr;
    if comma == -1 {
      SeparatorIs(s, lo0, |s|);
    } else if comma < |s| {
      SeparatorIs(s, lo0, comma);
    }
  }

  /** Commas inside a pair of quotes are passed over. */
  lemma {:induction false} PairSkipped(s: string, lo0: nat, lo: nat, comma: int, q1: int, q2: int)
    requires Searching(s, lo0, lo, comma) && Pair(s, lo, q1, q2) && comma >= q1
    ensures Searching(s, lo0, q2 + 1, if comma < q2 then StrChr(s, q2 + 1, ',') else comma)
  {
    hide ModeAt, StrChr;
    if comma >= q2 {
      SkipQuotes(s, lo, q2 + 1);
    }
  }

  lemma {:induction false} SkipQuotes(s: string, lo: nat, hi: nat)
    requires lo <= hi <= |s| && (StrChr(s, lo, ',') == -1 || StrChr(s, lo, ',') >= hi)
    ensures StrChr(s, hi, ',') == StrChr(s, lo, ',')
    decreases hi - lo
  {
    if lo < hi {
      SkipQuotes(s, lo + 1, hi);
    }
  }

  /** The inner loop: the next comma from lo0 on that is not within quotes, given the first pair of quotes there. */
  method NextComma(s: string, lo0: nat, quote1: int, quote2: int) returns (comma: int)
    requires lo0 <= quote1 < quote2 < |s| && s[quote1] == s[quote2] == '"'
    ensures comma == -1 || (lo0 <= comma < |s| && s[comma] == ',')
    ensures Paired(s) && Pair(s, lo0, quote1, quote2) ==> comma == OrNone(s, NextSeparator(s, lo0))
  {
    hide ModeAt, QuoteFrom, StrChr, NextSeparator, Paired, Pair, Searching;
    ghost var good := Paired(s) && Pair(s, lo0, quote1, quote2);
    var tmpQuote1, tmpQuote2 := quote1, quote2;
    ghost var lo := lo0;
    comma := StrChr(s, lo0, ',');
    StartSearch(s, lo0);
    while true
      invariant lo0 <= lo <= tmpQuote1 < tmpQuote2 < |s| && s[tmpQuote1] == s[tmpQuote2] == '"'
      invariant comma == -1 || (lo0 <= comma < |s| && s[comma] == ',')
      invariant good ==> Pair(s, lo, tmpQuote1, tmpQuote2) && Searching(s, lo0, lo, comma)
      decreases |s| - lo
    {
      if comma < tmpQuote1 {
        if good {
          BeforeQuote(s, lo0, lo, comma, tmpQuote1, tmpQuote2);
        }
        break;
      }
      if good {
        PairSkipped(s, lo0, lo, comma, tmpQuote1, tmpQuote2);
      }
      if comma < tmpQuote2 {
        comma := StrChr(s, tmpQuote2 + 1, ',');
      }
      ghost var behind := tmpQuote2 + 1;
      if good {
        PairEnds(s, lo, tmpQuote1, tmpQuote2);
        FindPair(s, behind);
      }
      tmpQuote1 := QuoteFind(s, tmpQuote2 + 1);
      if tmpQuote1 == -1 {
        if good {
          FoundComma(s, lo0, behind, comma, |s|);
        }
        break;
      }
      tmpQuote2 := QuoteFind(s, tmpQuote1 + 1);
      if tmpQuote2 == -1 {
        break;
      }
      lo := behind;
    }
  }

  lemma {:induction false} StartSearch(s: string, lo0: nat)
    requires lo0 <= |s|
    ensures Searching(s, lo0, lo0, StrChr(s, lo0, ','))
  {
  }

  lemma {:induction false} BeforeQuote(s: string, lo0: nat, lo: nat, comma: int, q1: int, q2: int)
    requires Searching(s, lo0, lo, comma) && Pair(s, lo, q1, q2) && comma < q1
    ensures comma == OrNone(s, NextSeparator(s, lo0))
  {
    hide ModeAt, StrChr;
    if comma == -1 {
      NoMoreCommas(s, lo0, lo);
    } else {
      SeparatorIs(s, lo0, comma);
    }
  }

  lemma {:induction false} NoMoreCommas(s: string, lo0: nat, lo: nat)
    requires Searching(s, lo0, lo, -1)
    ensures NextSeparator(s, lo0) == |s|
  {
    SeparatorIs(s, lo0, |s|);
  }

  lemma {:induction false} PairEnds(s: string, lo: nat, q1: int, q2: int)
    requires Pair(s, lo, q1, q2)
    ensures ModeAt(s, q2 + 1) == OUTSIDE
  {
  }

  // ---- one turn of the main loop ----

  /** Between turns, in paired text: the scan is outside quotes at ptr; comma is the next comma from there, or the
      separator just passed; and no separator has been missed since beg. */
  ghost predicate OnTheWay(s: string, beg: nat, ptr: nat, comma: int)
  {
    && beg <= ptr <= |s| && beg <= comma < |s| && ModeAt(s, ptr) == OUTSIDE
    && (forall k | beg <= k < comma :: !Separator(s, k))
    && if ptr <= comma then comma == StrChr(s, ptr, ',') else ptr == comma + 1 && Separator(s, comma)
  }

  /** The comma at hand separates when no quote comes before it. */
  lemma {:induction false} CommaSeparates(s: string, beg: nat, ptr: nat, comma: int, q1: int)
    requires OnTheWay(s, beg, ptr, comma) && s[comma] == ','
    requires forall k | ptr <= k <= (if q1 == -1 then |s| else q1) && k <= |s| :: !ModeAt(s, k).inside
    requires q1 == -1 || q1 > comma
    ensures NextSeparator(s, beg) == comma
  {
    hide ModeAt, StrChr;
    SeparatorIs(s, beg, comma);
  }

  lemma {:induction false} ScanHere(s: string, beg: nat, ptr: nat, comma: int)
    requires OnTheWay(s, beg, ptr, comma)
    ensures ModeAt(s, ptr) == OUTSIDE && ptr <= comma + 1
  {
  }

  lemma {:induction false} PairBefore(s: string, from: nat, q1: int, q2: int)
    requires Pair(s, from, q1, q2)
    ensures forall k | from <= k <= q1 :: !ModeAt(s, k).inside
  {
  }

  lemma {:induction false} PairLater(s: string, from: nat, later: nat, q1: int, q2: int)
    requires Pair(s, from, q1, q2) && from <= later <= q1
    ensures Pair(s, later, q1, q2)
  {
    hide ModeAt;
  }

  /** The quotes are before the comma: the scan moves behind them. */
  lemma {:induction false} QuotesBefore(s: string, beg: nat, ptr: nat, comma: int, q1: int, q2: int)
    requires OnTheWay(s, beg, ptr, comma) && Pair(s, ptr, q1, q2) && q2 < comma
    ensures OnTheWay(s, beg, q2 + 1, comma)
  {
    hide ModeAt, StrChr;
    SkipQuotes(s, ptr, q2 + 1);
  }

  /** The comma is inside the quotes: the next one behind them is looked at. */
  lemma {:induction false} CommaInside(s: string, beg: nat, ptr: nat, comma: int, q1: int, q2: int)
    requires OnTheWay(s, beg, ptr, comma) && Pair(s, ptr, q1, q2) && q1 < comma < q2
    ensures var next := StrChr(s, q2 + 1, ',');
      if next == -1 then NextSeparator(s, beg) == |s| else OnTheWay(s, beg, q2 + 1, next)
  {
    hide ModeAt, StrChr;
    var next := StrChr(s, q2 + 1, ',');
    assert forall k | beg <= k < comma :: !Separator(s, k);
    assert forall k | comma <= k <= q2 :: !Separator(s, k);
    if next == -1 {
      SeparatorIs(s, beg, |s|);
    }
  }

  /** Without further quotes every comma separates. */
  lemma {:induction false} NoQuotes(s: string, comma: int)
    requires 0 <= comma < |s| && forall k | comma < k <= |s| :: !ModeAt(s, k).inside
    ensures StrChr(s, comma + 1, ',') == OrNone(s, NextSeparator(s, comma + 1))
  {
    hide ModeAt, StrChr;
    var next := StrChr(s, comma + 1, ',');
    SeparatorIs(s, comma + 1, if next == -1 then |s| else next);
  }

  /** A separator found ahead: the next turn starts there. */
  lemma {:induction false} AtSeparator(s: string, beg: nat)
    requires beg <= |s| && NextSeparator(s, beg) < |s|
    ensures OnTheWay(s, beg, NextSeparator(s, beg) + 1, NextSeparator(s, beg))
  {
    AfterSeparator(s, NextSeparator(s, beg));
  }

  /** The comma that comes after the one at end, given the next pair of quotes, if there is one. */
  method CommaAfter(s: string, end: nat, quote1: int, quote2: int) returns (comma: int)
    requires end < |s| && (quote1 == -1 || (end < quote1 < quote2 < |s| && s[quote1] == s[quote2] == '"'))
    ensures comma == -1 || (end < comma < |s| && s[comma] == ',')
    ensures Paired(s) && (if quote1 == -1 then forall k | end < k <= |s| :: !ModeAt(s, k).inside
                          else Pair(s, end + 1, quote1, quote2))
      ==> comma == OrNone(s, NextSeparator(s, end + 1))
  {
    hide ModeAt, QuoteFrom, StrChr, NextSeparator, Paired, Separator, Pair;
    if quote1 != -1 {
      comma := NextComma(s, end + 1, quote1, quote2);
    } else {
      if forall k | end < k <= |s| :: !ModeAt(s, k).inside {
        NoQuotes(s, end);
      }
      comma := StrChr(s, end + 1, ',');
    }
  }

  /** The quotes from ptr on are looked at and the cursor and the comma are moved; end is the separator that closes the
      piece from beg, or -1 while it has not been found. ok is false when a quote is not closed. */
  method Advance(s: string, beg: nat, ptr0: nat, comma0: int) returns (ok: bool, end: int, ptr: nat, comma: int)
    requires beg <= comma0 < |s| && s[comma0] == ',' && beg <= ptr0 <= |s|
    ensures Paired(s) && OnTheWay(s, beg, ptr0, comma0) ==> ok
    ensures ptr <= |s| && (end == -1 || end == comma0)
    ensures comma == -1 || (beg <= comma < |s| && s[comma] == ',' && (end != -1 ==> end < comma < ptr))
    ensures ok && end == -1 && comma != -1 ==> ptr > ptr0
    ensures Paired(s) && OnTheWay(s, beg, ptr0, comma0) && end == -1 ==>
      if comma == -1 then NextSeparator(s, beg) == |s| else OnTheWay(s, beg, ptr, comma)
    ensures Paired(s) && OnTheWay(s, beg, ptr0, comma0) && end != -1 ==>
      && NextSeparator(s, beg) == end && comma == OrNone(s, NextSeparator(s, end + 1))
      && (comma != -1 ==> OnTheWay(s, end + 1, ptr, comma))
  {
    hide ModeAt, QuoteFrom, StrChr, NextSeparator, Paired, Separator, Pair, OnTheWay;
    ghost var good := Paired(s) && OnTheWay(s, beg, ptr0, comma0);
    ok, end, ptr, comma := true, -1, ptr0, comma0;
    if Paired(s) && OnTheWay(s, beg, ptr0, comma0) {
      ScanHere(s, beg, ptr0, comma0);
      FindPair(s, ptr0);
    }
    var quote2 := -1;
    var quote1 := QuoteFind(s, ptr);
    if quote1 != -1 {
      quote2 := QuoteFind(s, quote1 + 1);
      if quote2 == -1 {
        ok := false;
        return;
      }
      ptr := quote2 + 1;
    }
    if quote1 == -1 || quote1 > comma {
      end := comma;
      if good {
        if quote1 != -1 {
          PairBefore(s, ptr0, quote1, quote2);
          PairLater(s, ptr0, comma + 1, quote1, quote2);
        }
        CommaSeparates(s, beg, ptr0, comma, quote1);
      }
      comma := CommaAfter(s, end, quote1, quote2);
      if comma != -1 {
        if good {
          AtSeparator(s, end + 1);
        }
        ptr := comma + 1;
      }
    } else if quote1 < comma && quote2 < comma {
      if good {
        QuotesBefore(s, beg, ptr0, comma, quote1, quote2);
      }
      ptr := quote2 + 1;
    } else if quote1 < comma && comma < quote2 {
      if good {
        CommaInside(s, beg, ptr0, comma, quote1, quote2);
      }
      ptr := quote2 + 1;
      comma := StrChr(s, ptr, ',');
    }
  }

  // ---- the whole line ----

  /** The headers of a message, in the order in which they were stored. */
  class Message {
    var headers: seq<(string, string)>

    constructor ()
      ensures headers == []
    {
      headers := [];
    }

    /** osip_message_set__header. */
    method SetHeader(set_: Setter, name: string, value: string) returns (i: int)
      modifies this
      ensures i == set_(name, value)
      ensures headers == old(headers) + if i == 0 then [(name, value)] else []
    {
      i := set_(name, value);
      if i == 0 {
        headers := headers + [(name, value)];
      }
    }

    /** osip_message_set_multiple_header. When the quotes of the line come in pairs, it stores what the specification
        says, no more and no less, and returns its code. */
    method SetMultipleHeader(set_: Setter, hname: string, hvalue: string) returns (r: int)
      modifies this
      ensures Paired(hvalue) ==>
        var all := SplitLine(set_, ToLower(hname), hvalue);
        r == all.code && headers == old(headers) + Named(ToLower(hname), all.values)
    {
      hide ModeAt, QuoteFrom, StrChr, NextSeparator, Paired, SplitFrom, Named, ToLower, Trim, Separator, Pair;
      hide SplitLine, Answered, Progress;
      var name := ToLower(hname);
      var s := hvalue;
      var ptr: nat := 0;
      var comma := StrChr(s, ptr, ',');
      ghost var h0 := headers;
      if comma == -1 || name in SINGLE {
        var i := SetHeader(set_, name, s);
        SingleLine(set_, name, s, h0);
        AnsweredIs(set_, name, s, h0, headers, i);
        if i != 0 {
          return i;
        }
        return OSIP_SUCCESS;
      }
      var beg: nat := 0;
      ghost var done: seq<string> := [];
      StartLine(set_, name, s, h0);
      while comma != -1
        invariant comma != -1 && beg <= comma < |s| && s[comma] == ',' && beg <= ptr <= |s|
        invariant Paired(s) ==> OnTheWay(s, beg, ptr, comma) && Progress(set_, name, s, h0, headers, done, beg)
        decreases |s| - beg, |s| - ptr
      {
        var ok, end;
        ok, end, ptr, comma := Advance(s, beg, ptr, comma);
        if !ok {
          return OSIP_SYNTAXERROR;
        }
        if end != -1 {
          if end - beg + 1 < 2 {
            if Paired(s) {
              EmptyPiece(set_, name, s, h0, headers, done, beg);
              AnsweredIs(set_, name, s, h0, headers, OSIP_SYNTAXERROR);
            }
            return OSIP_SYNTAXERROR;
          }
          var value := Trim(s[beg..end]);
          if Paired(s) {
            NextPiece(set_, name, s, h0, headers, done, beg);
          }
          r := SetHeader(set_, name, value);
          if r != 0 {
            if Paired(s) {
              AnsweredIs(set_, name, s, h0, headers, r);
            }
            return r;
          }
          done := done + [value];
          beg := end + 1;
        }
        if comma == -1 {
          if Paired(s) {
            LastPiece(set_, name, s, h0, headers, done, beg);
          }
          r := SetLast(set_, name, s, beg);
          if Paired(s) {
            AnsweredIs(set_, name, s, h0, headers, r);
          }
          return;
        }
      }
      return OSIP_SYNTAXERROR;
    }

    /** The last piece of a line; nothing is stored for fewer than two characters. */
    method SetLast(set_: Setter, name: string, s: string, beg: nat) returns (r: int)
      requires beg <= |s|
      modifies this
      ensures if |s| - beg < 2 then r == OSIP_SUCCESS && headers == old(headers)
              else
                var value := Trim(s[beg..]);
                r == set_(name, value) && headers == old(headers) + if r == 0 then [(name, value)] else []
    {
      if |s| - beg < 2 {
        return OSIP_SUCCESS;
      }
      r := SetHeader(set_, name, Trim(s[beg..]));
    }
  }

  /** Values stored under a name. */
  function Named(name: string, values: seq<string>): (r: seq<(string, string)>)
  {
    seq(|values|, i requires 0 <= i < |values| => (name, values[i]))
  }

  function Behind(done: seq<string>, rest: Stored): (r: Stored)
  {
    rest.(values := done + rest.values)
  }

  /** From the headers h0 the line has led to the headers h and the code r, as the specification says. */
  ghost predicate Answered(
    set_: Setter, name: string, s: string, h0: seq<(string, string)>, h: seq<(string, string)>, r: int)
  {
    var all := SplitLine(set_, name, s);
    r == all.code && h == h0 + Named(name, all.values)
  }

  lemma {:induction false} AnsweredIs(
    set_: Setter, name: string, s: string, h0: seq<(string, string)>, h: seq<(string, string)>, r: int)
    requires Answered(set_, name, s, h0, h, r)
    ensures var all := SplitLine(set_, name, s); r == all.code && h == h0 + Named(name, all.values)
  {
  }

  /** The pieces done have been stored, and the line from beg on is left. */
  ghost predicate Progress(
    set_: Setter, name: string, s: string, h0: seq<(string, string)>, h: seq<(string, string)>, done: seq<string>,
    beg: nat)
    requires beg <= |s|
  {
    h == h0 + Named(name, done) && SplitLine(set_, name, s) == Behind(done, SplitFrom(set_, name, s, beg))
  }

  lemma {:induction false} NamedMore(name: string, values: seq<string>, value: string)
    ensures Named(name, values + [value]) == Named(name, values) + [(name, value)]
  {
  }

  lemma {:induction false} SingleLine(set_: Setter, name: string, s: string, h0: seq<(string, string)>)
    requires StrChr(s, 0, ',') == -1 || name in SINGLE
    ensures var r := set_(name, s);
      Answered(set_, name, s, h0, h0 + if r == 0 then [(name, s)] else [], r)
  {
    assert Named(name, [s]) == [(name, s)] && Named(name, []) == [];
  }

  lemma {:induction false} StartLine(set_: Setter, name: string, s: string, h0: seq<(string, string)>)
    requires StrChr(s, 0, ',') != -1 && name !in SINGLE
    ensures OnTheWay(s, 0, 0, StrChr(s, 0, ',')) && Progress(set_, name, s, h0, h0, [], 0)
  {
    assert Named(name, []) == [];
  }

  lemma {:induction false} EmptyPiece(
    set_: Setter, name: string, s: string, h0: seq<(string, string)>, h: seq<(string, string)>, done: seq<string>,
    beg: nat)
    requires beg < |s| && NextSeparator(s, beg) == beg && Progress(set_, name, s, h0, h, done, beg)
    ensures Answered(set_, name, s, h0, h, OSIP_SYNTAXERROR)
  {
    assert done + [] == done;
  }

  lemma {:induction false} NextPiece(
    set_: Setter, name: string, s: string, h0: seq<(string, string)>, h: seq<(string, string)>, done: seq<string>,
    beg: nat)
    requires beg <= |s| && beg < NextSeparator(s, beg) < |s| && Progress(set_, name, s, h0, h, done, beg)
    ensures var end := NextSeparator(s, beg);
      var value := Trim(s[beg..end]);
      var r := set_(name, value);
      if r != 0 then Answered(set_, name, s, h0, h + [], r)
      else Progress(set_, name, s, h0, h + [(name, value)], done + [value], end + 1)
  {
    hide Trim, NextSeparator, SplitLine, Named;
    var end := NextSeparator(s, beg);
    var value := Trim(s[beg..end]);
    NamedMore(name, done, value);
    var rest := SplitFrom(set_, name, s, end + 1);
    assert done + ([value] + rest.values) == done + [value] + rest.values;
    assert done + [] == done && h + [] == h;
  }

  lemma {:induction false} LastPiece(
    set_: Setter, name: string, s: string, h0: seq<(string, string)>, h: seq<(string, string)>, done: seq<string>,
    beg: nat)
    requires beg <= |s| && NextSeparator(s, beg) == |s| && Progress(set_, name, s, h0, h, done, beg)
    ensures if |s| - beg < 2 then Answered(set_, name, s, h0, h, OSIP_SUCCESS)
      else
        var value := Trim(s[beg..]);
        var r := set_(name, value);
        Answered(set_, name, s, h0, h + if r == 0 then [(name, value)] else [], r)
  {
    hide Trim, NextSeparator, SplitLine, Named;
    NamedMore(name, done, Trim(s[beg..]));
    assert done + [] == done && h + [] == h;
  }

  // ---- nothing of the line is lost ----

  /** The pieces between the separators. */
  function Pieces(s: string, beg: nat): (r: seq<string>)
    requires beg <= |s|
    ensures r != []
    decreases |s| - beg
  {
    var end := NextSeparator(s, beg);
    if end == |s| then [s[beg..]] else [s[beg..end]] + Pieces(s, end + 1)
  }

  function Joined(pieces: seq<string>): (r: string)
    requires pieces != []
  {
    if |pieces| == 1 then pieces[0] else pieces[0] + "," + Joined(pieces[1..])
  }

  /** Joined with commas the pieces are the text again. */
  lemma {:induction false} PiecesJoin(s: string, beg: nat)
    requires beg <= |s|
    ensures Joined(Pieces(s, beg)) == s[beg..]
    decreases |s| - beg
  {
    hide *;
    PiecesStep(s, beg);
    var end := NextSeparator(s, beg);
    if end < |s| {
      PiecesJoin(s, end + 1);
      JoinedMore(s[beg..end], Pieces(s, end + 1));
      CutAt(s, beg, end);
    } else {
      JoinedOne(s[beg..]);
    }
  }

  lemma {:induction false} CutAt(s: string, beg: nat, end: nat)
    requires beg <= end < |s| && s[end] == ','
    ensures s[beg..] == s[beg..end] + "," + s[end + 1..]
  {
  }

  lemma {:induction false} PiecesStep(s: string, beg: nat)
    requires beg <= |s|
    ensures var end := NextSeparator(s, beg);
      if end == |s| then Pieces(s, beg) == [s[beg..]]
      else s[end] == ',' && Pieces(s, beg) == [s[beg..end]] + Pieces(s, end + 1)
  {
  }

  lemma {:induction false} JoinedOne(piece: string)
    ensures Joined([piece]) == piece
  {
  }

  lemma {:induction false} JoinedMore(piece: string, rest: seq<string>)
    requires rest != []
    ensures Joined([piece] + rest) == piece + "," + Joined(rest)
  {
    assert ([piece] + rest)[1..] == rest;
  }

  /** The names of the headers whose commas are part of the value. */
  predicate Uncut(name: string)
  {
    name in {
      "date", "to", "from", "call-id", "cseq", "subject", "expires", "server", "user-agent", "www-authenticate",
      "authentication-info", "proxy-authenticate", "proxy-authorization", "proxy-authentication-info", "organization",
      "authorization"}
  }

  lemma {:induction false} SingleNames(name: string)
    ensures name in SINGLE <==> Uncut(name)
  {
    if name in SINGLE {
      var i :| 0 <= i < |SINGLE| && SINGLE[i] == name;
      assert i < 16;
    }
    if Uncut(name) {
      assert name == SINGLE[0] || name == SINGLE[1] || name == SINGLE[2] || name == SINGLE[3] || name == SINGLE[4]
        || name == SINGLE[5] || name == SINGLE[6] || name == SINGLE[7] || name == SINGLE[8] || name == SINGLE[9]
        || name == SINGLE[10] || name == SINGLE[11] || name == SINGLE[12] || name == SINGLE[13] || name == SINGLE[14]
        || name == SINGLE[15];
    }
  }

  /** Such a header, and a line without a comma, is stored whole. */
  lemma {:induction false} StoredWhole(set_: Setter, name: string, s: string)
    requires ',' !in s || Uncut(name)
    ensures SplitLine(set_, name, s) == Stored(if set_(name, s) == 0 then [s] else [], set_(name, s))
  {
    hide StrChr, Uncut;
    SingleNames(name);
  }

  /** All others are cut at their separators, and what happens is told by the pieces: those before the first that ends
      it are stored, trimmed and in order; an empty piece that is not the last is an error, a last piece of fewer than
      two characters is dropped, and a piece that its parser refuses ends the line with that parser's error. */
  lemma {:induction false} CutExactly(set_: Setter, name: string, s: string) returns (n: nat)
    requires ',' in s && !Uncut(name)
    ensures var p, r := Pieces(s, 0), SplitLine(set_, name, s);
      && n <= |p| && r.values == Trimmed(p[..n])
      && (forall i: nat | i < n :: p[i] != "" && set_(name, Trim(p[i])) == 0)
      && if n == |p| then r.code == 0 && |p[n - 1]| >= 2
         else if n == |p| - 1 then
           if |p[n]| < 2 then r.code == 0 else r.code == set_(name, Trim(p[n])) != 0
         else r.code == if p[n] == "" then -5 else set_(name, Trim(p[n]))
    ensures n < |Pieces(s, 0)| - 1 ==> SplitLine(set_, name, s).code != 0
  {
    hide StrChr, Trim, NextSeparator, SplitFrom, Uncut;
    SingleNames(name);
    n := CutFrom(set_, name, s, 0);
  }

  lemma {:induction false} CutFrom(set_: Setter, name: string, s: string, beg: nat) returns (n: nat)
    requires beg <= |s|
    ensures var p, r := Pieces(s, beg), SplitFrom(set_, name, s, beg);
      && n <= |p| && r.values == Trimmed(p[..n])
      && (forall i: nat | i < n :: p[i] != "" && set_(name, Trim(p[i])) == 0)
      && if n == |p| then r.code == 0 && |p[n - 1]| >= 2
         else if n == |p| - 1 then
           if |p[n]| < 2 then r.code == 0 else r.code == set_(name, Trim(p[n])) != 0
         else r.code == (if p[n] == "" then -5 else set_(name, Trim(p[n]))) != 0
    decreases |s| - beg
  {
    hide Trim, NextSeparator, Pieces;
    PiecesStep(s, beg);
    var p, end := Pieces(s, beg), NextSeparator(s, beg);
    var value := Trim(p[0]);
    if end == |s| {
      n := if |s| - beg < 2 || set_(name, value) != 0 then 0 else 1;
      assert p[..0] == [] && p[..1] == [p[0]];
      TrimmedMore(p[0], []);
    } else if end == beg || set_(name, value) != 0 {
      n := 0;
      assert p[..0] == [];
      TrimmedMore(p[0], []);
    } else {
      var rest := Pieces(s, end + 1);
      var m := CutFrom(set_, name, s, end + 1);
      n := m + 1;
      assert p[..n] == [p[0]] + rest[..m];
      TrimmedMore(p[0], rest[..m]);
      assert forall i: nat | 0 < i < n :: p[i] == rest[i - 1];
    }
  }

  function Trimmed(pieces: seq<string>): (r: seq<string>)
  {
    if pieces == [] then [] else [Trim(pieces[0])] + Trimmed(pieces[1..])
  }

  /** When the setter takes every piece, no piece is empty and the last one has two characters, every piece is stored.
      */
  lemma {:induction false} AllStored(set_: Setter, name: string, s: string, beg: nat)
    requires beg <= |s|
    requires var p := Pieces(s, beg); (forall x | x in p :: x != "" && set_(name, Trim(x)) == 0) && |p[|p| - 1]| >= 2
    ensures SplitFrom(set_, name, s, beg) == Stored(Trimmed(Pieces(s, beg)), OSIP_SUCCESS)
    decreases |s| - beg
  {
    hide Trim, NextSeparator, Pieces;
    PiecesStep(s, beg);
    var end := NextSeparator(s, beg);
    if end < |s| {
      var first, rest := s[beg..end], Pieces(s, end + 1);
      assert first in [first] + rest && forall x | x in rest :: x in [first] + rest;
      AllStored(set_, name, s, end + 1);
      TrimmedMore(first, rest);
    } else {
      assert s[beg..] in Pieces(s, beg);
      TrimmedMore(s[beg..], []);
      assert [s[beg..]] + [] == [s[beg..]];
    }
  }

  lemma {:induction false} TrimmedMore(first: string, rest: seq<string>)
    ensures Trimmed([first] + rest) == [Trim(first)] + Trimmed(rest) && Trimmed([]) == []
  {
    assert ([first] + rest)[1..] == rest;
    hide Trim;
  }
}
