/** MD5 as RFC 1321 defines it, up to the block transform: padding, blocks, byte order. */
module Md5Spec {
  import opened Bytes
  import opened Words

  type Words4 = s: seq<Word> | |s| == 4 witness [0, 0, 0, 0]

  /** One block's effect on the state; any function will do here. */
  type Transform = (Words4, seq<Byte>) -> Words4

  const INIT: Words4 := [0x67452301, 0xefcdab89, 0x98badcfe, 0x10325476]

  // ---- byte order (section 2 and 3.4: low-order byte first) ----

  function ByteOf(w: Word, k: nat): (r: Byte)
    requires k < 4
  {
    if k == 0 then w % 0x100
    else if k == 1 then w / 0x100 % 0x100
    else if k == 2 then w / 0x10000 % 0x100
    else w / 0x1000000 % 0x100
  }

  function WordOf(b0: Byte, b1: Byte, b2: Byte, b3: Byte): (r: Word)
  {
    b0 + b1 * 0x100 + b2 * 0x10000 + b3 * 0x1000000
  }

  function EncodeWords(ws: seq<Word>): (r: seq<Byte>)
    ensures |r| == 4 * |ws|
  {
    if ws == [] then []
    else
      var w := ws[|ws| - 1];
      EncodeWords(ws[..|ws| - 1]) + [ByteOf(w, 0), ByteOf(w, 1), ByteOf(w, 2), ByteOf(w, 3)]
  }

  function DecodeBytes(bs: seq<Byte>): (r: seq<Word>)
    requires |bs| % 4 == 0
    ensures |r| == |bs| / 4
  {
    if bs == [] then []
    else
      var n := |bs| - 4;
      DecodeBytes(bs[..n]) + [WordOf(bs[n], bs[n + 1], bs[n + 2], bs[n + 3])]
  }

  lemma {:induction false} WordBytes(w: Word)
    ensures WordOf(ByteOf(w, 0), ByteOf(w, 1), ByteOf(w, 2), ByteOf(w, 3)) == w
  {
    var a := w / 0x100;
    var b := a / 0x100;
    var c := b / 0x100;
    Shift8(w);
    assert w / 0x1000000 == c by {
      Shift8(a);
    }
    assert c < 0x100;
    assert w == a * 0x100 + w % 0x100 && a == b * 0x100 + a % 0x100 && b == c * 0x100 + b % 0x100;
  }

  lemma {:induction false} Shift8(w: nat)
    ensures w / 0x10000 == w / 0x100 / 0x100
    ensures w / 0x1000000 == w / 0x100 / 0x10000
  {
    var a := w / 0x100;
    assert w == a / 0x100 * 0x10000 + (a % 0x100 * 0x100 + w % 0x100);
    assert w == a / 0x10000 * 0x1000000 + (a % 0x10000 * 0x100 + w % 0x100);
  }

  lemma {:induction false} BytesWord(b0: Byte, b1: Byte, b2: Byte, b3: Byte)
    ensures var w := WordOf(b0, b1, b2, b3);
      ByteOf(w, 0) == b0 && ByteOf(w, 1) == b1 && ByteOf(w, 2) == b2 && ByteOf(w, 3) == b3
  {
    var w := WordOf(b0, b1, b2, b3);
    assert w == (b1 + b2 * 0x100 + b3 * 0x10000) * 0x100 + b0;
    Shift8(w);
    var a := w / 0x100;
    assert a == b1 + b2 * 0x100 + b3 * 0x10000;
    Shift8(a);
  }

  function BytesOf(w: Word): (r: seq<Byte>)
    ensures |r| == 4
  {
    [ByteOf(w, 0), ByteOf(w, 1), ByteOf(w, 2), ByteOf(w, 3)]
  }

  lemma {:induction false} EncodeSnoc(ws: seq<Word>, w: Word)
    ensures EncodeWords(ws + [w]) == EncodeWords(ws) + BytesOf(w)
  {
    assert (ws + [w])[..|ws|] == ws;
  }

  lemma {:induction false} DecodeSnoc(bs: seq<Byte>, b: seq<Byte>)
    requires |bs| % 4 == 0 && |b| == 4
    ensures DecodeBytes(bs + b) == DecodeBytes(bs) + [WordOf(b[0], b[1], b[2], b[3])]
  {
    assert (bs + b)[..|bs|] == bs;
  }

  /** The bytes of word i stand at 4 * i, low-order byte first. */
  lemma {:induction false} EncodedWord(ws: seq<Word>, i: nat)
    requires i < |ws|
    ensures var e := EncodeWords(ws);
      ws[i] == e[4 * i] as int + e[4 * i + 1] as int * 0x100 + e[4 * i + 2] as int * 0x10000
               + e[4 * i + 3] as int * 0x1000000
  {
    var front, w := ws[..|ws| - 1], ws[|ws| - 1];
    assert front + [w] == ws;
    EncodeSnoc(front, w);
    hide EncodeWords, ByteOf;
    if i < |front| {
      EncodedWord(front, i);
    } else {
      WordBytes(w);
    }
  }

  /** The initial state is the bytes 01 23 45 67 89 ab cd ef fe dc ba 98 76 54 32 10 (section 3.3). */
  lemma {:induction false} InitialBytes()
    ensures EncodeWords(INIT)
      == [0x01, 0x23, 0x45, 0x67, 0x89, 0xab, 0xcd, 0xef, 0xfe, 0xdc, 0xba, 0x98, 0x76, 0x54, 0x32, 0x10]
  {
    hide EncodeWords;
    FourWords(INIT[0], INIT[1], INIT[2], INIT[3]);
    assert INIT == [INIT[0], INIT[1], INIT[2], INIT[3]];
  }

  lemma {:induction false} FourWords(a: Word, b: Word, c: Word, d: Word)
    ensures EncodeWords([a, b, c, d]) == BytesOf(a) + BytesOf(b) + BytesOf(c) + BytesOf(d)
  {
    hide BytesOf;
    EncodeSnoc([], a);
    EncodeSnoc([a], b);
    EncodeSnoc([a, b], c);
    EncodeSnoc([a, b, c], d);
    assert [] + [a] == [a] && [a] + [b] == [a, b] && [a, b] + [c] == [a, b, c] && [a, b, c] + [d] == [a, b, c, d];
    assert EncodeWords([]) == [];
    hide EncodeWords;
  }

  /** Decoding undoes encoding. */
  lemma {:induction false} DecodeEncode(ws: seq<Word>)
    ensures DecodeBytes(EncodeWords(ws)) == ws
  {
    if ws != [] {
      hide WordOf, EncodeWords, DecodeBytes;
      var front, w := ws[..|ws| - 1], ws[|ws| - 1];
      assert front + [w] == ws;
      DecodeEncode(front);
      EncodeSnoc(front, w);
      DecodeSnoc(EncodeWords(front), BytesOf(w));
      WordBytes(w);
    }
  }

  lemma {:induction false} BytesOfWord(b: seq<Byte>)
    requires |b| == 4
    ensures BytesOf(WordOf(b[0], b[1], b[2], b[3])) == b
  {
    hide WordOf, ByteOf;
    BytesWord(b[0], b[1], b[2], b[3]);
  }

  /** Encoding undoes decoding. */
  lemma {:induction false} EncodeDecode(bs: seq<Byte>)
    requires |bs| % 4 == 0
    ensures EncodeWords(DecodeBytes(bs)) == bs
  {
    if bs != [] {
      hide WordOf, EncodeWords, DecodeBytes, BytesOf;
      var n := |bs| - 4;
      var front, b := bs[..n], bs[n..];
      assert front + b == bs;
      EncodeDecode(front);
      DecodeSnoc(front, b);
      EncodeSnoc(DecodeBytes(front), WordOf(b[0], b[1], b[2], b[3]));
      BytesOfWord(b);
    }
  }

  // ---- padding (sections 3.1 and 3.2) ----

  function Zeros(n: nat): (r: seq<Byte>)
    ensures |r| == n
  {
    seq(n, i => 0)
  }

  /** How many zero bytes follow the 0x80 so that 8 bytes complete a block. */
  function ZerosFor(n: nat): (r: nat)
    ensures r < 64 && (n + 1 + r + 8) % 64 == 0
  {
    (119 - n % 64) % 64
  }

  function LengthWords(n: nat): (r: seq<Word>)
    ensures |r| == 2
  {
    [8 * n % BASE, 8 * n / BASE % BASE]
  }

  /** The message, a one bit, zeros to 56 bytes modulo 64, and the length in bits modulo 2^64. */
  function Padded(m: seq<Byte>): (r: seq<Byte>)
    ensures |r| % 64 == 0
  {
    m + ([0x80] + Zeros(ZerosFor(|m|))) + EncodeWords(LengthWords(|m|))
  }

  /** The message; 0x80; zeros, as few as fill whole blocks; and the length in bits modulo 2^64, in eight bytes of which
      the first is the lowest. */
  lemma {:induction false} PaddedIs(m: seq<Byte>)
    ensures var p, n := Padded(m), |Padded(m)| - 8;
      && |p| % 64 == 0 && |m| + 9 <= |p| < |m| + 73
      && p[..|m|] == m && p[|m|] == 0x80 && (forall k | |m| < k < n :: p[k] == 0)
      && p[n] as int + p[n + 1] as int * 0x100 + p[n + 2] as int * 0x10000 + p[n + 3] as int * 0x1000000
         + p[n + 4] as int * 0x1_0000_0000 + p[n + 5] as int * 0x100_0000_0000
         + p[n + 6] as int * 0x1_0000_0000_0000 + p[n + 7] as int * 0x100_0000_0000_0000
         == 8 * |m| % 0x1_0000_0000_0000_0000
  {
    var ws := LengthWords(|m|);
    EncodedWord(ws, 0);
    EncodedWord(ws, 1);
    hide EncodeWords;
    var p, n := Padded(m), |Padded(m)| - 8;
    assert p[n..] == EncodeWords(ws);
    forall k: nat | k < 8
      ensures p[n + k] == EncodeWords(ws)[k]
    {
      assert p[n..][k] == p[n + k];
    }
    LowTwoWords(8 * |m|);
  }

  lemma {:induction false} LowTwoWords(x: nat)
    ensures x % BASE + x / BASE % BASE * BASE == x % (BASE * BASE)
  {
    var q := x / BASE;
    assert x == q / BASE * (BASE * BASE) + (q % BASE * BASE + x % BASE);
  }

  // ---- blocks (section 3.4) ----

  /** The state after the first k blocks of m. */
  function After(f: Transform, m: seq<Byte>, k: nat): (r: Words4)
    requires 64 * k <= |m|
  {
    if k == 0 then INIT else f(After(f, m, k - 1), m[64 * (k - 1)..64 * k])
  }

  /** The 16 bytes of the digest. */
  function Digest(f: Transform, m: seq<Byte>): (r: seq<Byte>)
  {
    EncodeWords(After(f, Padded(m), |Padded(m)| / 64))
  }

  /** What follows does not matter to the first blocks. */
  lemma {:induction false} AfterPrefix(f: Transform, m: seq<Byte>, x: seq<Byte>, k: nat)
    requires 64 * k <= |m|
    ensures After(f, m + x, k) == After(f, m, k)
  {
    if k > 0 {
      AfterPrefix(f, m, x, k - 1);
      assert (m + x)[64 * (k - 1)..64 * k] == m[64 * (k - 1)..64 * k];
    }
  }
}
