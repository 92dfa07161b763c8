/** Hexadecimal escapes and UTF-8: hexdigit2int, decode_hex4 and codepoint_to_utf8 of lua_cjson.c. */
module Unicode {
  import opened Bytes
  import opened Options

  // ---- hexadecimal digits ----

  /** hexdigit2int: the digit's value, or -1. Setting bit 5 makes a letter lowercase. */
  function HexDigit(hex: Byte): (r: int)
    ensures -1 <= r < 16
    ensures hex == 0 ==> r == -1
  {
    if '0' as int <= hex <= '9' as int then hex - '0' as int
    else
      var low := if hex / 0x20 % 2 == 0 then hex + 0x20 else hex;
      if 'a' as int <= low <= 'f' as int then 10 + low - 'a' as int else -1
  }

  /** The byte is the hexadecimal digit of value v, in either case. */
  predicate IsHex(b: Byte, v: nat)
  {
    v < 16 && (b == "0123456789abcdef"[v] as int || b == "0123456789ABCDEF"[v] as int)
  }

  lemma {:induction false} Alphabet(v: nat)
    requires v < 16
    ensures "0123456789abcdef"[v] as int == if v < 10 then 48 + v else 87 + v
    ensures "0123456789ABCDEF"[v] as int == if v < 10 then 48 + v else 55 + v
  {
    var lower, upper := "0123456789abcdef", "0123456789ABCDEF";
    assert lower[0] == '0' && lower[1] == '1' && lower[2] == '2' && lower[3] == '3' && lower[4] == '4';
    assert lower[5] == '5' && lower[6] == '6' && lower[7] == '7' && lower[8] == '8' && lower[9] == '9';
    assert lower[10] == 'a' && lower[11] == 'b' && lower[12] == 'c' && lower[13] == 'd' && lower[14] == 'e';
    assert upper[0] == '0' && upper[1] == '1' && upper[2] == '2' && upper[3] == '3' && upper[4] == '4';
    assert upper[5] == '5' && upper[6] == '6' && upper[7] == '7' && upper[8] == '8' && upper[9] == '9';
    assert upper[10] == 'A' && upper[11] == 'B' && upper[12] == 'C' && upper[13] == 'D' && upper[14] == 'E';
  }

  /** The digits are those of the two alphabets, and no other byte is one. */
  lemma {:induction false} HexDigitIs(b: Byte, v: nat)
    ensures IsHex(b, v) <==> HexDigit(b) == v
  {
    if v < 16 {
      Alphabet(v);
    }
  }

  /** The lowercase digit char2escape writes. */
  function HexChar(v: nat): (r: Byte)
    requires v < 16
    ensures HexDigit(r) == v
  {
    if v < 10 then '0' as int + v else 'a' as int + v - 10
  }

  /** The value of the four hexadecimal digits at p, or -1 when they are not four digits. */
  function Hex4(d: Text, p: nat): (r: int)
    requires p < |d|
    ensures -1 <= r < 0x10000
    ensures r >= 0 ==> p + 4 < |d|
  {
    var d0 := HexDigit(d[p]);
    if d0 < 0 then -1 else
    var d1 := HexDigit(d[p + 1]);
    if d1 < 0 then -1 else
    var d2 := HexDigit(d[p + 2]);
    if d2 < 0 then -1 else
    var d3 := HexDigit(d[p + 3]);
    if d3 < 0 then -1 else d0 * 0x1000 + d1 * 0x100 + d2 * 0x10 + d3
  }

  /** decode_hex4: reads on only while the bytes are digits, so never beyond the terminator. */
  method DecodeHex4(d: Text, p: nat) returns (r: int)
    requires p < |d|
    ensures r == Hex4(d, p)
  {
    var digit := new int[4];
    var i := 0;
    while i < 4
      invariant 0 <= i <= 4 && p + i < |d|
      invariant forall k | 0 <= k < i :: digit[k] == HexDigit(d[p + k]) && digit[k] >= 0
    {
      digit[i] := HexDigit(d[p + i]);
      if digit[i] < 0 {
        return -1;
      }
      i := i + 1;
    }
    return digit[0] * 0x1000 + digit[1] * 0x100 + digit[2] * 0x10 + digit[3];
  }

  /** The four bytes at p are the digits of these values. */
  predicate FourHex(d: Text, p: nat, v0: nat, v1: nat, v2: nat, v3: nat)
  {
    p + 4 < |d| && IsHex(d[p], v0) && IsHex(d[p + 1], v1) && IsHex(d[p + 2], v2) && IsHex(d[p + 3], v3)
  }

  /** Four digits are read as their number, the first one highest. */
  lemma {:induction false} Hex4Means(d: Text, p: nat, v0: nat, v1: nat, v2: nat, v3: nat)
    requires FourHex(d, p, v0, v1, v2, v3)
    ensures Hex4(d, p) == ((v0 * 16 + v1) * 16 + v2) * 16 + v3
  {
    HexDigitIs(d[p], v0);
    HexDigitIs(d[p + 1], v1);
    HexDigitIs(d[p + 2], v2);
    HexDigitIs(d[p + 3], v3);
    hide HexDigit;
  }

  /** Nothing else is read. */
  lemma {:induction false} Hex4Only(d: Text, p: nat) returns (v0: nat, v1: nat, v2: nat, v3: nat)
    requires p < |d| && Hex4(d, p) >= 0
    ensures FourHex(d, p, v0, v1, v2, v3) && Hex4(d, p) == ((v0 * 16 + v1) * 16 + v2) * 16 + v3
  {
    v0, v1, v2, v3 := HexDigit(d[p]), HexDigit(d[p + 1]), HexDigit(d[p + 2]), HexDigit(d[p + 3]);
    HexDigitIs(d[p], v0);
    HexDigitIs(d[p + 1], v1);
    HexDigitIs(d[p + 2], v2);
    HexDigitIs(d[p + 3], v3);
    hide HexDigit;
    Hex4Means(d, p, v0, v1, v2, v3);
  }

  /** A byte that is no digit, and -1 is the answer. */
  lemma {:induction false} Hex4Rejects(d: Text, p: nat, k: nat, b: Byte)
    requires k < 4 && p + k < |d| && d[p + k] == b && forall v: nat :: !IsHex(b, v)
    ensures Hex4(d, p) == -1
  {
    hide Hex4, IsHex;
    if Hex4(d, p) >= 0 {
      var v0, v1, v2, v3 := Hex4Only(d, p);
    }
  }

  // ---- UTF-8 ----

  predicate Surrogate(u: int)
  {
    0xD800 <= u < 0xE000
  }

  predicate Scalar(cp: int)
  {
    0 <= cp <= 0x10FFFF && !Surrogate(cp)
  }

  /** The bytes codepoint_to_utf8 stores; the bits or'ed together never overlap, so they are added. */
  function Utf8(cp: nat): (r: seq<Byte>)
    requires cp <= 0x1F_FFFF
    ensures 1 <= |r| <= 4
  {
    if cp <= 0x7F then [cp]
    else if cp <= 0x7FF then [cp / 0x40 + 0xC0, cp % 0x40 + 0x80]
    else if cp <= 0xFFFF then [cp / 0x1000 + 0xE0, cp / 0x40 % 0x40 + 0x80, cp % 0x40 + 0x80]
    else [cp / 0x40000 + 0xF0, cp / 0x1000 % 0x40 + 0x80, cp / 0x40 % 0x40 + 0x80, cp % 0x40 + 0x80]
  }

  predicate Tail(b: Byte)
  {
    0x80 <= b < 0xC0
  }

  /** The code point a complete UTF-8 sequence stands for, by the syntax of byte sequences in section 4 of RFC 3629:
      shortest form only, no surrogates, nothing above U+10FFFF. */
  function Utf8Meaning(b: seq<Byte>): (r: Option<nat>)
  {
    if |b| == 1 && b[0] < 0x80 then Some(b[0])
    else if |b| == 2 && 0xC2 <= b[0] < 0xE0 && Tail(b[1]) then
      Some(Join(0, 0, b[0] as int - 0xC0, b[1] as int - 0x80))
    else if |b| == 3 && 0xE0 <= b[0] < 0xF0 && Tail(b[1]) && Tail(b[2])
            && (b[0] == 0xE0 ==> b[1] >= 0xA0) && (b[0] == 0xED ==> b[1] < 0xA0) then
      Some(Join(0, b[0] as int - 0xE0, b[1] as int - 0x80, b[2] as int - 0x80))
    else if |b| == 4 && 0xF0 <= b[0] < 0xF5 && Tail(b[1]) && Tail(b[2]) && Tail(b[3])
            && (b[0] == 0xF0 ==> b[1] >= 0x90) && (b[0] == 0xF4 ==> b[1] < 0x90) then
      Some(Join(b[0] as int - 0xF0, b[1] as int - 0x80, b[2] as int - 0x80, b[3] as int - 0x80))
    else None
  }

  /** Four groups of payload bits, six bits each below the first. */
  function Join(a: nat, b: nat, c: nat, e: nat): (r: nat)
  {
    a * 0x40000 + b * 0x1000 + c * 0x40 + e
  }

  lemma {:induction false} Six(q: nat, r: nat)
    requires r < 0x40
    ensures (q * 0x40 + r) / 0x40 == q && (q * 0x40 + r) % 0x40 == r
  {
  }

  lemma {:induction false} SixTwice(x: nat)
    ensures x / 0x1000 == x / 0x40 / 0x40
  {
    var q := x / 0x40;
    assert x == q / 0x40 * 0x1000 + (q % 0x40 * 0x40 + x % 0x40);
  }

  lemma {:induction false} SixThrice(x: nat)
    ensures x / 0x40000 == x / 0x40 / 0x40 / 0x40
  {
    var q := x / 0x1000;
    SixTwice(x);
    assert x == q / 0x40 * 0x40000 + (q % 0x40 * 0x1000 + x % 0x1000);
  }

  lemma {:induction false} JoinSplits(a: nat, b: nat, c: nat, e: nat)
    requires b < 0x40 && c < 0x40 && e < 0x40
    ensures var cp := Join(a, b, c, e);
      && cp / 0x40000 == a && cp / 0x1000 % 0x40 == b && cp / 0x40 % 0x40 == c && cp % 0x40 == e
      && cp / 0x1000 == a * 0x40 + b && cp / 0x40 == a * 0x1000 + b * 0x40 + c
  {
    var q1 := a * 0x40 + b;
    var q2 := q1 * 0x40 + c;
    Six(a, b);
    Six(q1, c);
    Six(q2, e);
    SixTwice(Join(a, b, c, e));
    SixThrice(Join(a, b, c, e));
  }

  lemma {:induction false} SplitJoins(cp: nat)
    ensures cp == Join(cp / 0x40000, cp / 0x1000 % 0x40, cp / 0x40 % 0x40, cp % 0x40)
    ensures cp / 0x40000 == 0 ==> cp / 0x1000 % 0x40 == cp / 0x1000
    ensures cp / 0x1000 == 0 ==> cp / 0x40 % 0x40 == cp / 0x40
  {
    SixTwice(cp);
    SixThrice(cp);
  }

  lemma {:induction false} Utf8Reads(cp: nat)
    requires Scalar(cp)
    ensures Utf8Meaning(Utf8(cp)) == Some(cp)
  {
    SplitJoins(cp);
    hide Join;
    if cp <= 0x7F {
    } else if cp <= 0x7FF {
      assert |Utf8(cp)| == 2;
    } else if cp <= 0xFFFF {
      assert |Utf8(cp)| == 3;
    } else {
      assert |Utf8(cp)| == 4;
    }
  }

  lemma {:induction false} Utf8Unique(cp: nat, b: seq<Byte>)
    requires Utf8Meaning(b) == Some(cp)
    ensures Scalar(cp) && b == Utf8(cp)
  {
    if |b| == 1 {
    } else if |b| == 2 {
      JoinSplits(0, 0, b[0] as int - 0xC0, b[1] as int - 0x80);
    } else if |b| == 3 {
      JoinSplits(0, b[0] as int - 0xE0, b[1] as int - 0x80, b[2] as int - 0x80);
    } else {
      JoinSplits(b[0] as int - 0xF0, b[1] as int - 0x80, b[2] as int - 0x80, b[3] as int - 0x80);
    }
  }

  /** The bytes stored for a scalar value are its UTF-8 encoding, the only one there is. */
  lemma {:induction false} Utf8Exact(cp: nat, b: seq<Byte>)
    requires Scalar(cp)
    ensures Utf8Meaning(b) == Some(cp) <==> b == Utf8(cp)
  {
    Utf8Reads(cp);
    if Utf8Meaning(b) == Some(cp) {
      Utf8Unique(cp, b);
    }
    hide Utf8Meaning, Utf8;
  }

  /** codepoint_to_utf8: how many bytes were stored, 0 when the number needs more than 21 bits. */
  method CodepointToUtf8(utf8: array<Byte>, cp: nat) returns (len: nat)
    requires utf8.Length == 4
    modifies utf8
    ensures len <= 4 && (len == 0 <==> cp > 0x1F_FFFF)
    ensures len > 0 ==> utf8[..len] == Utf8(cp)
  {
    if cp <= 0x7F {
      utf8[0] := cp;
      return 1;
    }
    if cp <= 0x7FF {
      utf8[0], utf8[1] := cp / 0x40 + 0xC0, cp % 0x40 + 0x80;
      return 2;
    }
    if cp <= 0xFFFF {
      utf8[0], utf8[1], utf8[2] := cp / 0x1000 + 0xE0, cp / 0x40 % 0x40 + 0x80, cp % 0x40 + 0x80;
      return 3;
    }
    if cp <= 0x1FFFFF {
      utf8[0], utf8[1] := cp / 0x40000 + 0xF0, cp / 0x1000 % 0x40 + 0x80;
      utf8[2], utf8[3] := cp / 0x40 % 0x40 + 0x80, cp % 0x40 + 0x80;
      return 4;
    }
    return 0;
  }

  // ---- \uXXXX ----

  const BACKSLASH: Byte := '\\' as int

  const LETTER_U: Byte := 'u' as int

  /** The code point's escape, one UTF-16 unit or a surrogate pair of them, read at the backslash at p: its UTF-8 and
      the number of bytes read. */
  function UnicodeEscape(d: Text, p: nat): (r: Option<(seq<Byte>, nat)>)
    requires p + 2 < |d|
    ensures r.Some? ==> p + r.value.1 < |d| && |r.value.0| <= r.value.1 && r.value.1 > 0
  {
    var u := Hex4(d, p + 2);
    if u < 0 then None
    else if u / 0x800 != 27 then Some((Utf8(u), 6))
    else if u / 0x400 % 2 == 1 then None
    else if d[p + 6] != BACKSLASH || d[p + 7] != LETTER_U then None
    else
      var low := Hex4(d, p + 8);
      if low < 0 || low / 0x400 != 55 then None
      else Some((Utf8(u % 0x400 * 0x400 + low % 0x400 + 0x10000), 12))
  }

  /** A \uXXXX for the UTF-16 unit u stands at p. */
  ghost predicate UnitAt(d: Text, p: nat, u: nat)
  {
    exists v0: nat, v1: nat, v2: nat, v3: nat :: UnitDigits(d, p, u, v0, v1, v2, v3)
  }

  predicate UnitDigits(d: Text, p: nat, u: nat, v0: nat, v1: nat, v2: nat, v3: nat)
  {
    && p + 6 < |d| && d[p] == '\\' as int && d[p + 1] == 'u' as int
    && FourHex(d, p + 2, v0, v1, v2, v3) && u == ((v0 * 16 + v1) * 16 + v2) * 16 + v3
  }

  lemma {:induction false} UnitRead(d: Text, p: nat, u: nat)
    requires UnitAt(d, p, u)
    ensures p + 6 < |d| && d[p] == BACKSLASH && d[p + 1] == LETTER_U && Hex4(d, p + 2) == u
  {
    hide Hex4, FourHex;
    var v0: nat, v1: nat, v2: nat, v3: nat :| UnitDigits(d, p, u, v0, v1, v2, v3);
    Hex4Means(d, p + 2, v0, v1, v2, v3);
  }

  lemma {:induction false} UnitFound(d: Text, p: nat)
    requires p + 2 < |d| && d[p] == BACKSLASH && d[p + 1] == LETTER_U && Hex4(d, p + 2) >= 0
    ensures UnitAt(d, p, Hex4(d, p + 2))
  {
    hide Hex4, FourHex;
    var v0, v1, v2, v3 := Hex4Only(d, p + 2);
    assert UnitDigits(d, p, Hex4(d, p + 2), v0, v1, v2, v3);
  }

  /** The n bytes at p are the escape of the scalar value cp by section 7 of RFC 8259: one unit, or for a value outside
      the basic plane the high and then the low surrogate. */
  ghost predicate Spelled(d: Text, p: nat, cp: nat, n: nat)
  {
    && Scalar(cp)
    && if cp < 0x10000 then n == 6 && UnitAt(d, p, cp)
       else
         && n == 12 && UnitAt(d, p, 0xD800 + (cp - 0x10000) / 0x400)
         && UnitAt(d, p + 6, 0xDC00 + (cp - 0x10000) % 0x400)
  }

  /** Every spelling is accepted and gives the UTF-8 of its code point. */
  lemma {:induction false} EscapeAccepts(d: Text, p: nat, cp: nat, n: nat)
    requires Spelled(d, p, cp, n)
    ensures UnicodeEscape(d, p) == Some((Utf8(cp), n))
  {
    hide Hex4, Utf8, UnitAt;
    if cp < 0x10000 {
      UnitRead(d, p, cp);
    } else {
      UnitRead(d, p, 0xD800 + (cp - 0x10000) / 0x400);
      UnitRead(d, p + 6, 0xDC00 + (cp - 0x10000) % 0x400);
    }
  }

  lemma {:induction false} PairJoins(u: nat, low: nat)
    requires u < 0x10000 && low < 0x10000 && u / 0x800 == 27 && u / 0x400 % 2 == 0 && low / 0x400 == 55
    ensures var cp := u % 0x400 * 0x400 + low % 0x400 + 0x10000;
      && 0x10000 <= cp <= 0x10FFFF
      && u == 0xD800 + (cp - 0x10000) / 0x400 && low == 0xDC00 + (cp - 0x10000) % 0x400
  {
    var x, y := u % 0x400, low % 0x400;
    assert u == 54 * 0x400 + x && low == 55 * 0x400 + y;
    assert (x * 0x400 + y) / 0x400 == x;
  }

  /** Nothing else is: lone and reversed surrogates have no spelling. */
  lemma {:induction false} EscapeOnly(d: Text, p: nat) returns (cp: nat)
    requires p + 2 < |d| && d[p] == BACKSLASH && d[p + 1] == LETTER_U && UnicodeEscape(d, p).Some?
    ensures Spelled(d, p, cp, UnicodeEscape(d, p).value.1) && UnicodeEscape(d, p).value.0 == Utf8(cp)
  {
    hide Utf8, Hex4, UnitAt;
    var u := Hex4(d, p + 2);
    UnitFound(d, p);
    if u / 0x800 != 27 {
      cp := u;
    } else {
      UnitFound(d, p + 6);
      PairJoins(u, Hex4(d, p + 8));
      cp := u % 0x400 * 0x400 + Hex4(d, p + 8) % 0x400 + 0x10000;
    }
  }
}
