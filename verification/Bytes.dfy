/** Bytes, C strings, and pieces put together. */
module Bytes {

  type Byte = b: int | 0 <= b < 256

  /** A C string with its terminator; other zero bytes may come before it. */
  type Text = d: seq<Byte> | |d| > 0 && d[|d| - 1] == 0 witness [0]

  /** A decimal digit. */
  predicate IsDigit(b: Byte)
  {
    '0' as int <= b <= '9' as int
  }

  function Concat(chunks: seq<seq<Byte>>): (r: seq<Byte>)
  {
    if chunks == [] then [] else Concat(chunks[..|chunks| - 1]) + chunks[|chunks| - 1]
  }

  lemma {:induction false} ConcatNone()
    ensures Concat([]) == []
  {
  }

  lemma {:induction false} ConcatNext(chunks: seq<seq<Byte>>, i: nat)
    requires i < |chunks|
    ensures Concat(chunks[..i + 1]) == Concat(chunks[..i]) + chunks[i]
  {
    assert chunks[..i + 1][..i] == chunks[..i];
  }
}
