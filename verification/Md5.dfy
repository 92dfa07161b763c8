/** The streaming interface of osip_md5c.c: MD5Init, MD5Update and MD5Final on a context updated in place. */
module Md5 {
  import opened Arith
  import opened Bytes
  import opened Words
  import opened Md5Spec

  // ---- the 64-bit count in two words ----

  /** The words hold eight times n modulo 2^64. */
  ghost predicate Counts(low: Word, high: Word, n: nat)
  {
    low as int + high as int * BASE == 8 * n % (BASE * BASE)
  }

  function Wrap(x: nat): (r: Word)
  {
    x % BASE
  }

  lemma {:induction false} CountWords(n: nat)
    ensures Counts(8 * n % BASE, 8 * n / BASE % BASE, n)
  {
    LowTwoWords(8 * n);
  }

  lemma {:induction false} CountUnique(low: Word, high: Word, n: nat)
    requires Counts(low, high, n)
    ensures low == 8 * n % BASE && high == 8 * n / BASE % BASE
  {
    CountWords(n);
  }

  /** The bytes in the buffer, from the low word of the count. */
  lemma {:induction false} CountIndex(low: Word, high: Word, n: nat)
    requires Counts(low, high, n)
    ensures low / 8 % 64 == n % 64
  {
    CountUnique(low, high, n);
    hide Counts;
    LowIndex(low, n, 8 * n / BASE);
  }

  lemma {:induction false} LowIndex(low: nat, n: nat, q: nat)
    requires 8 * n == q * BASE + low
    ensures low / 8 % 64 == n % 64
  {
    var k := n - q * 0x2000_0000;
    assert low == 8 * k + 0;
    DivModUnique(low, 8, k, 0);
    assert n == (k / 64 + q * 0x80_0000) * 64 + k % 64;
    DivModUnique(n, 64, k / 64 + q * 0x80_0000, k % 64);
  }

  /** The carry test of MD5Update: the sum is smaller than what was added exactly when it wrapped. */
  lemma {:induction false} CountAdd(low: Word, high: Word, n: nat, len: nat)
    requires Counts(low, high, n) && len < BASE
    ensures var added := Wrap(8 * len);
      var low' := Wrap(low + added);
      var high' := Wrap(Wrap(high + (if low' < added then 1 else 0)) + len / 0x2000_0000);
      Counts(low', high', n + len)
  {
    var added: Word, hi := Wrap(8 * len), len / 0x2000_0000;
    var low' := Wrap(low as int + added);
    var c := if low' < added then 1 else 0;
    CarryOut(low, added);
    HighPart(len);
    WrapTwice(high as int + c, hi);
    var sum := high as int + c + hi;
    TwoWords(8 * n, low, high, 8 * len, sum, low');
  }

  lemma {:induction false} CarryOut(low: Word, added: Word)
    ensures var low' := Wrap(low as int + added);
      low as int + added == (if low' < added then BASE else 0) + low'
  {
  }

  lemma {:induction false} HighPart(len: nat)
    ensures 8 * len == len / 0x2000_0000 * BASE + Wrap(8 * len)
  {
  }

  /** Adding word by word with a carry adds modulo 2^64. */
  lemma {:induction false} TwoWords(x: nat, low: Word, high: Word, y: nat, sum: nat, low': Word)
    requires low as int + high as int * BASE == x % (BASE * BASE)
    requires low as int + high as int * BASE + y == sum * BASE + low'
    ensures low' as int + Wrap(sum) as int * BASE == (x + y) % (BASE * BASE)
  {
    var high', e := sum % BASE, sum / BASE;
    var q := x / (BASE * BASE);
    assert x == q * (BASE * BASE) + (low as int + high as int * BASE);
    assert x + y == q * (BASE * BASE) + e * (BASE * BASE) + (high' * BASE + low' as int);
    assert x + y == (q + e) * (BASE * BASE) + (high' * BASE + low' as int);
  }

  lemma {:induction false} WrapTwice(a: nat, b: nat)
    ensures Wrap(Wrap(a) as int + b) == Wrap(a + b)
  {
    assert a == a / BASE * BASE + a % BASE;
  }

  // ---- the guard of the block loop ----

  /** i + 63 < inputLen in 32 bits. */
  predicate Guard(i: nat, len: nat)
  {
    Wrap(i + 63) < len
  }

  /** The loop counter after k turns when the buffer held index bytes. */
  function Turn(index: nat, k: nat): (r: nat)
    requires index < 64
  {
    64 - index + 64 * k
  }

  /** The last value the counter takes inside the input. */
  function LastTurn(index: nat, len: nat): (r: nat)
    requires index < 64 && len >= 64 - index
    ensures len - 63 <= r <= len
  {
    len - (len - (64 - index)) % 64
  }

  /** The sum in the loop guard wraps around before the loop ends. */
  predicate Overruns(index: nat, len: nat)
    requires index < 64
  {
    len >= 64 - index && LastTurn(index, len) + 63 >= BASE
  }

  /** The guard keeps the loop inside the input, on every turn, exactly when it does not overrun. */
  lemma {:induction false} GuardExact(index: nat, len: nat)
    requires index < 64 && 64 - index <= len < BASE
    ensures (forall k: nat | Turn(index, k) <= len :: Guard(Turn(index, k), len) <==> Turn(index, k) + 64 <= len)
      <==> !Overruns(index, len)
  {
    var k := (len - (64 - index)) / 64;
    assert Turn(index, k) == LastTurn(index, len);
    if !Overruns(index, len) {
      forall k: nat | Turn(index, k) <= len
        ensures Guard(Turn(index, k), len) <==> Turn(index, k) + 64 <= len
      {
        TurnBefore(index, len, k);
      }
    }
  }

  lemma {:induction false} TurnBefore(index: nat, len: nat, k: nat)
    requires index < 64 && 64 - index <= len < BASE && Turn(index, k) <= len
    ensures Turn(index, k) <= LastTurn(index, len)
  {
  }

  /** An update of 2^32 - 1 bytes after one byte does overrun. */
  lemma {:induction false} OverrunExample()
    ensures Overruns(1, BASE - 1) && Guard(LastTurn(1, BASE - 1), BASE - 1)
  {
  }

  // ---- block by block ----

  lemma {:induction false} FirstBlock(f: Transform, m: seq<Byte>, input: seq<Byte>)
    requires |input| >= 64 - |m| % 64
    ensures var n, r := |m| / 64, |m| % 64;
      64 * (n + 1) <= |m + input|
      && After(f, m + input, n + 1) == f(After(f, m, n), m[|m| - r..] + input[..64 - r])
  {
    var n, r := |m| / 64, |m| % 64;
    AfterPrefix(f, m, input, n);
    assert (m + input)[64 * n..64 * (n + 1)] == m[|m| - r..] + input[..64 - r];
  }

  lemma {:induction false} NextBlock(f: Transform, m: seq<Byte>, input: seq<Byte>, k: nat)
    requires Turn(|m| % 64, k) + 64 <= |input|
    ensures var n, i := |m| / 64 + 1 + k, Turn(|m| % 64, k);
      64 * (n + 1) <= |m + input|
      && After(f, m + input, n + 1) == f(After(f, m + input, n), input[i..i + 64])
  {
    var n, i := |m| / 64 + 1 + k, Turn(|m| % 64, k);
    assert 64 * n == |m| + i;
    assert (m + input)[64 * n..64 * (n + 1)] == input[i..i + 64];
  }

  lemma {:induction false} LastBlock(m: seq<Byte>, input: seq<Byte>, k: nat)
    requires Turn(|m| % 64, k) <= |input| < Turn(|m| % 64, k) + 64
    ensures var whole, i := m + input, Turn(|m| % 64, k);
      && |whole| / 64 == |m| / 64 + 1 + k && |whole| % 64 == |input| - i
      && whole[|whole| - |whole| % 64..] == input[i..]
  {
    var i := Turn(|m| % 64, k);
    assert |m| + |input| == 64 * (|m| / 64 + 1 + k) + (|input| - i);
  }

  lemma {:induction false} NoBlock(f: Transform, m: seq<Byte>, input: seq<Byte>)
    requires |input| < 64 - |m| % 64
    ensures var whole := m + input;
      && |whole| / 64 == |m| / 64 && |whole| % 64 == |m| % 64 + |input|
      && After(f, whole, |whole| / 64) == After(f, m, |m| / 64)
      && whole[|whole| - |whole| % 64..] == m[|m| - |m| % 64..] + input
  {
    AfterPrefix(f, m, input, |m| / 64);
    assert |m| + |input| == 64 * (|m| / 64) + (|m| % 64 + |input|);
  }

  /** osip_MD5_memcpy. */
  method Memcpy(output: array<Byte>, at: nat, input: seq<Byte>)
    requires at + |input| <= output.Length
    modifies output
    ensures output[..at] == old(output[..at])
    ensures output[at..at + |input|] == input
    ensures output[at + |input|..] == old(output[at + |input|..])
  {
    var i := 0;
    while i < |input|
      invariant 0 <= i <= |input|
      invariant forall j | 0 <= j < output.Length ::
        output[j] == if at <= j < at + i then input[j - at] else old(output[j])
    {
      output[at + i] := input[i];
      i := i + 1;
    }
  }

  /** osip_Encode. */
  method Encode(output: array<Byte>, input: array<Word>, len: nat)
    requires output.Length >= len == 4 * input.Length
    modifies output
    ensures output[..len] == EncodeWords(input[..])
  {
    hide ByteOf, EncodeWords;
    var i, j := 0, 0;
    EncodeNone();
    while j < len
      invariant 0 <= i <= input.Length && j == 4 * i
      invariant output[..j] == EncodeWords(input[..i])
    {
      output[j] := ByteOf(input[i], 0);
      output[j + 1] := ByteOf(input[i], 1);
      output[j + 2] := ByteOf(input[i], 2);
      output[j + 3] := ByteOf(input[i], 3);
      assert output[..j + 4] == output[..j] + BytesOf(input[i]);
      EncodeSnoc(input[..i], input[i]);
      assert input[..i + 1] == input[..i] + [input[i]];
      i, j := i + 1, j + 4;
    }
    assert input[..i] == input[..];
  }

  lemma {:induction false} EncodeNone()
    ensures EncodeWords([]) == []
  {
  }

  /** osip_Decode. */
  method Decode(output: array<Word>, input: seq<Byte>)
    requires |input| == 4 * output.Length
    modifies output
    ensures output[..] == DecodeBytes(input)
  {
    hide WordOf, DecodeBytes;
    var i, j := 0, 0;
    DecodeNone();
    while j < |input|
      invariant 0 <= i <= output.Length && j == 4 * i
      invariant output[..i] == DecodeBytes(input[..j])
    {
      output[i] := WordOf(input[j], input[j + 1], input[j + 2], input[j + 3]);
      DecodeSnoc(input[..j], input[j..j + 4]);
      assert input[..j + 4] == input[..j] + input[j..j + 4];
      i, j := i + 1, j + 4;
    }
    assert input[..j] == input;
  }

  lemma {:induction false} DecodeNone()
    ensures DecodeBytes([]) == []
  {
  }

  class Context {
    const f: Transform
    const state: array<Word>
    const count: array<Word>
    const buffer: array<Byte>
    /** Everything absorbed so far. */
    ghost var message: seq<Byte>

    ghost predicate Valid()
      reads this, state, count, buffer
    {
      Holds() && Counts(count[0], count[1], |message|)
    }

    /** State and buffer: the whole blocks of the message are in the one, the bytes after them in the other. */
    ghost predicate Holds()
      reads this, state, buffer
    {
      && state.Length == 4 && count.Length == 2 && buffer.Length == 64 && state != count
      && state[..] == After(f, message, |message| / 64)
      && buffer[..|message| % 64] == message[|message| - |message| % 64..]
    }

    /** osip_MD5Init. */
    constructor (f: Transform)
      ensures Valid() && message == [] && this.f == f && fresh(state) && fresh(count) && fresh(buffer)
    {
      hide After, Counts;
      this.f := f;
      state := new Word[4];
      count := new Word[2];
      buffer := new Byte[64];
      message := [];
      new;
      count[0], count[1] := 0, 0;
      state[0], state[1], state[2], state[3] := 0x67452301, 0xefcdab89, 0x98badcfe, 0x10325476;
      assert state[..] == INIT;
      NothingAbsorbed(f);
    }

    /** osip_MD5Transform as a step of the state. */
    method TransformBlock(block: seq<Byte>)
      requires state.Length == 4
      modifies state
      ensures state[..] == f(old(state[..]), block)
    {
      var s := f(state[..], block);
      state[0], state[1], state[2], state[3] := s[0], s[1], s[2], s[3];
      assert state[..] == s;
    }

    /** The first lines of osip_MD5Update. */
    method AddToCount(len: nat, ghost n: nat)
      requires count.Length == 2 && len < BASE && Counts(count[0], count[1], n)
      modifies count
      ensures Counts(count[0], count[1], n + len)
    {
      hide Counts, Wrap;
      CountAdd(count[0], count[1], n, len);
      var added := Wrap(8 * len);
      count[0] := Wrap(count[0] as int + added);
      if count[0] < added {
        count[1] := Wrap(count[1] as int + 1);
      } else {
        WrapSmall(count[1], count[1]);
      }
      count[1] := Wrap(count[1] as int + len / 0x2000_0000);
    }

    /** The middle of osip_MD5Update: the buffer and then the input itself are transformed block by block. What remains
        is the first index' bytes of the buffer and the input from i on. */
    method TransformBlocks(input: seq<Byte>, index: nat) returns (index': nat, i: nat)
      requires Holds() && |input| < BASE && index == |message| % 64 && !Overruns(index, |input|)
      modifies state, buffer
      ensures i <= |input| && index' <= 64
      ensures var whole := message + input;
        && state[..] == After(f, whole, |whole| / 64)
        && buffer[..index'] + input[i..] == whole[|whole| - |whole| % 64..]
    {
      hide After, Counts, Overruns, Guard, Turn, Wrap, LastTurn;
      ghost var m := message;
      var partLen := 64 - index;
      if |input| < partLen {
        NoBlock(f, m, input);
        return index, 0;
      }
      FillBuffer(input, index);
      TurnStep(index, 0);
      ghost var k;
      i, k := WholeBlocks(m, input, index);
      LastBlock(m, input, k);
      assert buffer[..0] + input[i..] == input[i..];
      return 0, i;
    }

    /** The first block: what is buffered and the input up to 64 bytes. */
    method FillBuffer(input: seq<Byte>, index: nat)
      requires Holds() && index == |message| % 64 && |input| >= 64 - index
      modifies state, buffer
      ensures 64 * (|message| / 64 + 1) <= |message + input|
      ensures state[..] == After(f, message + input, |message| / 64 + 1)
    {
      hide After;
      var partLen := 64 - index;
      Memcpy(buffer, index, input[..partLen]);
      assert buffer[..] == message[|message| - index..] + input[..partLen];
      FirstBlock(f, message, input);
      TransformBlock(buffer[..]);
    }

    /** The block loop over the input, m being what came before. */
    method WholeBlocks(ghost m: seq<Byte>, input: seq<Byte>, index: nat) returns (i: nat, ghost k: nat)
      requires state.Length == 4 && index == |m| % 64 && 64 - index <= |input| < BASE && !Overruns(index, |input|)
      requires 64 * (|m| / 64 + 1) <= |m + input| && state[..] == After(f, m + input, |m| / 64 + 1)
      modifies state
      ensures i == Turn(index, k) <= |input| < i + 64 && 64 * (|m| / 64 + 1 + k) <= |m + input|
      ensures state[..] == After(f, m + input, |m| / 64 + 1 + k)
    {
      hide After, Overruns, Guard, Turn, Wrap, LastTurn;
      i := 64 - index;
      GuardExact(index, |input|);
      k := 0;
      TurnStep(index, 0);
      while Guard(i, |input|)
        invariant i == Turn(index, k) <= |input|
        invariant 64 * (|m| / 64 + 1 + k) <= |m + input|
        invariant state[..] == After(f, m + input, |m| / 64 + 1 + k)
        decreases |input| - i
      {
        NextBlock(f, m, input, k);
        TransformBlock(input[i..i + 64]);
        TurnStep(index, k);
        WrapSmall(i + 64, |input|);
        i := Wrap(i + 64);
        k := k + 1;
      }
    }

    /** osip_MD5Update, for every input on which its loop guard does not wrap around. */
    method Update(input: seq<Byte>)
      requires Valid() && |input| < BASE && !Overruns(|message| % 64, |input|)
      modifies this, state, count, buffer
      ensures Valid() && message == old(message) + input
    {
      hide After, Counts, Overruns;
      ghost var whole := message + input;
      CountIndex(count[0], count[1], |message|);
      var index := count[0] / 8 % 64;
      AddToCount(|input|, |message|);
      var i;
      index, i := TransformBlocks(input, index);
      Remainder(whole, buffer[..index] + input[i..]);
      ghost var kept, n := buffer[..index], |whole| % 64;
      Memcpy(buffer, index, input[i..]);
      assert buffer[..n] == kept + input[i..];
      message := whole;
    }

    /** osip_MD5_memset over the whole context. */
    method Zeroize()
      requires state.Length == 4 && count.Length == 2 && buffer.Length == 64
      modifies state, count, buffer
      ensures state[..] == [0, 0, 0, 0] && count[..] == [0, 0] && buffer[..] == Zeros(64)
    {
      forall i | 0 <= i < 4 {
        state[i] := 0;
      }
      count[0], count[1] := 0, 0;
      forall i | 0 <= i < 64 {
        buffer[i] := 0;
      }
      assert state[..] == [0, 0, 0, 0];
    }

    /** osip_MD5Final: pads, appends the length taken before padding, and gives out the digest; the context is zeroed.
        */
    method Final(digest: array<Byte>)
      requires Valid() && digest.Length == 16 && digest != buffer
      modifies this, state, count, buffer, digest
      ensures digest[..] == Digest(f, old(message))
      ensures state[..] == [0, 0, 0, 0] && count[..] == [0, 0] && buffer[..] == Zeros(64)
    {
      hide After, Counts, Overruns, EncodeWords, Zeros, LengthWords, Padded;
      ghost var m := message;
      var bits := new Byte[8];
      Encode(bits, count, 8);
      CountLengths(count[..], |m|);
      CountIndex(count[0], count[1], |m|);
      var index := count[0] / 8 % 64;
      var padLen := if index < 56 then 56 - index else 120 - index;
      PaddingParts(m, padLen);
      ShortUpdate(index, padLen);
      Update(PADDING[..padLen]);
      ShortUpdate(56, 8);
      Update(bits[..]);
      Encode(digest, state, 16);
      assert message == Padded(m);
      Zeroize();
    }
  }

  lemma {:induction false} Remainder(whole: seq<Byte>, rest: seq<Byte>)
    requires rest == whole[|whole| - |whole| % 64..]
    ensures |rest| == |whole| % 64 < 64
  {
  }

  lemma {:induction false} NothingAbsorbed(f: Transform)
    ensures After(f, [], 0) == INIT && Counts(0, 0, 0)
  {
  }

  const PADDING: seq<Byte> := [0x80] + Zeros(63)

  lemma {:induction false} CountLengths(count: seq<Word>, n: nat)
    requires |count| == 2 && Counts(count[0], count[1], n)
    ensures count == LengthWords(n)
  {
    CountUnique(count[0], count[1], n);
  }

  /** The padding length of the code is the one the standard asks for. */
  lemma {:induction false} PaddingParts(m: seq<Byte>, padLen: nat)
    requires padLen == if |m| % 64 < 56 then 56 - |m| % 64 else 120 - |m| % 64
    ensures 1 <= padLen <= 64 && (|m| + padLen) % 64 == 56
    ensures Padded(m) == m + PADDING[..padLen] + EncodeWords(LengthWords(|m|))
  {
    assert padLen == 1 + ZerosFor(|m|);
    assert PADDING[..padLen] == [0x80] + Zeros(padLen - 1);
    assert |m| + padLen == 64 * (|m| / 64) + |m| % 64 + padLen;
  }

  lemma {:induction false} ShortUpdate(index: nat, len: nat)
    requires index < 64 && len <= 64
    ensures !Overruns(index, len)
  {
  }

  lemma {:induction false} TurnStep(index: nat, k: nat)
    requires index < 64
    ensures Turn(index, k + 1) == Turn(index, k) + 64 && Turn(index, 0) == 64 - index
  {
  }

  lemma {:induction false} WrapSmall(x: nat, len: nat)
    requires x <= len < BASE
    ensures Wrap(x) == x
  {
  }

  /** However a message is cut into updates, the digest is that of the whole message. */
  method DigestOfChunks(f: Transform, chunks: seq<seq<Byte>>, digest: array<Byte>)
    requires digest.Length == 16
    requires forall i | 0 <= i < |chunks| ::
      |chunks[i]| < BASE && !Overruns(|Concat(chunks[..i])| % 64, |chunks[i]|)
    modifies digest
    ensures digest[..] == Digest(f, Concat(chunks))
  {
    hide Overruns, Digest, Concat, Counts, After;
    ConcatNone();
    assert chunks[..0] == [];
    var context := new Context(f);
    var i := 0;
    while i < |chunks|
      invariant 0 <= i <= |chunks|
      invariant context.Valid() && context.message == Concat(chunks[..i]) && context.f == f
      invariant fresh(context) && fresh(context.state) && fresh(context.count) && fresh(context.buffer)
    {
      ConcatNext(chunks, i);
      context.Update(chunks[i]);
      i := i + 1;
    }
    assert chunks[..i] == chunks;
    context.Final(digest);
  }
}
