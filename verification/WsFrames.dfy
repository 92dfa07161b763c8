/** Frames in a byte buffer, and what wsDecoder and do_received_data make of them, as functions of the buffer. */
module WsFrames {
  import opened Arith
  import opened Bytes

  // ---- exclusive or of bytes, bit by bit ----

  function XorBits(a: nat, b: nat, k: nat): (r: nat)
  {
    if k == 0 then 0 else (a % 2 + b % 2) % 2 + 2 * XorBits(a / 2, b / 2, k - 1)
  }

  lemma {:induction false} XorTwice(a: nat, b: nat, k: nat)
    requires a < Pow(2, k)
    ensures XorBits(a, b, k) < Pow(2, k) && XorBits(XorBits(a, b, k), b, k) == a
  {
    if k > 0 {
      XorTwice(a / 2, b / 2, k - 1);
      XorLow(a % 2, b % 2, XorBits(a / 2, b / 2, k - 1));
    }
  }

  lemma {:induction false} XorLow(a: nat, b: nat, high: nat)
    requires a < 2 && b < 2
    ensures var r := (a + b) % 2 + 2 * high; r / 2 == high && (r % 2 + b) % 2 == a
  {
  }

  lemma {:induction false} HalfShift(x: nat, p: nat)
    requires p > 0
    ensures x / (2 * p) == x / 2 / p
  {
    var q, r := x / 2 / p, x / 2 % p;
    assert x / 2 == q * p + r;
    Doubled(x, q, p, r);
    DivModUnique(x, 2 * p, q, 2 * r + x % 2);
  }

  lemma {:induction false} Doubled(x: nat, q: nat, p: nat, r: nat)
    requires x / 2 == q * p + r
    ensures x == q * (2 * p) + (2 * r + x % 2)
  {
  }

  lemma {:induction false} XorSplit(a: nat, b: nat, k: nat)
    requires k > 0
    ensures XorBits(a, b, k) % 2 == (a % 2 + b % 2) % 2 && XorBits(a, b, k) / 2 == XorBits(a / 2, b / 2, k - 1)
  {
    XorLow(a % 2, b % 2, XorBits(a / 2, b / 2, k - 1));
  }

  /** Bit i of a number. */
  function BitAt(a: nat, i: nat): (r: nat)
  {
    a / Pow(2, i) % 2
  }

  lemma {:induction false} LowBit(a: nat)
    ensures BitAt(a, 0) == a % 2
  {
    PowOne(2);
  }

  lemma {:induction false} NextBit(a: nat, i: nat)
    requires i > 0
    ensures BitAt(a, i) == BitAt(a / 2, i - 1)
  {
    PowNext(2, i);
    HalfShift(a, Pow(2, i - 1));
  }

  lemma {:induction false} XorBitsAt(a: nat, b: nat, k: nat, i: nat)
    requires i < k
    ensures BitAt(XorBits(a, b, k), i) == 1 <==> BitAt(a, i) != BitAt(b, i)
  {
    hide XorBits, BitAt;
    XorSplit(a, b, k);
    if i == 0 {
      LowBit(a);
      LowBit(b);
      LowBit(XorBits(a, b, k));
    } else {
      NextBit(a, i);
      NextBit(b, i);
      NextBit(XorBits(a, b, k), i);
      XorBitsAt(a / 2, b / 2, k - 1, i - 1);
    }
  }

  lemma {:induction false} TwoToTheEighth()
    ensures Pow(2, 8) == 256
  {
    assert Pow(2, 4) == 16;
  }

  function Xor(a: Byte, b: Byte): (r: Byte)
  {
    XorIsByte(a, b);
    XorBits(a, b, 8)
  }

  lemma {:induction false} XorIsByte(a: Byte, b: Byte)
    ensures XorBits(a, b, 8) < 256
    ensures XorBits(XorBits(a, b, 8), b, 8) == a
  {
    TwoToTheEighth();
    XorTwice(a, b, 8);
    hide XorBits, Pow;
  }

  function Masked(p: seq<Byte>, mask: seq<Byte>): (r: seq<Byte>)
    requires |mask| == 4
    ensures |r| == |p|
  {
    seq(|p|, i requires 0 <= i < |p| => Xor(p[i], mask[i % 4]))
  }

  /** A bit of a masked byte is set exactly when the bits of the byte and of its mask byte differ. */
  lemma {:induction false} MaskedBits(p: seq<Byte>, mask: seq<Byte>, j: nat, i: nat)
    requires |mask| == 4 && j < |p| && i < 8
    ensures var k := Pow(2, i);
      Masked(p, mask)[j] as int / k % 2 == 1 <==> p[j] as int / k % 2 != mask[j % 4] as int / k % 2
  {
    XorBitsAt(p[j], mask[j % 4], 8, i);
    hide XorBits, Pow;
  }

  /** Masking a second time gives the payload back. */
  lemma {:induction false} MaskedTwice(p: seq<Byte>, mask: seq<Byte>)
    requires |mask| == 4
    ensures Masked(Masked(p, mask), mask) == p
  {
    hide XorBits;
    forall i | 0 <= i < |p|
      ensures Masked(Masked(p, mask), mask)[i] == p[i]
    {
      XorIsByte(p[i], mask[i % 4]);
    }
  }

  // ---- the head of the buffer ----

  /** What stands at the start of a buffer. */
  datatype Head =
    | Incomplete
    | NotMasked
    | Complete(fin: bool, opcode: nat, payload: seq<Byte>, size: nat)

  /** Eight bytes, high byte first. */
  function BigEndian(b: seq<Byte>): (r: nat)
  {
    if b == [] then 0 else BigEndian(b[..|b| - 1]) * 256 + b[|b| - 1]
  }

  /** Where the payload starts, by the 7-bit length. */
  function PayloadOffset(len7: nat): (r: nat)
  {
    if len7 == 126 then 8 else if len7 == 127 then 14 else 6
  }

  /** The length used; the 64-bit form is added onto the 127 that announced it. */
  function PayloadLength(data: seq<Byte>): (r: nat)
    requires |data| >= 2 && |data| >= PayloadOffset(data[1] % 128)
  {
    var len7 := data[1] % 128;
    if len7 == 126 then data[2] * 256 + data[3]
    else if len7 == 127 then 127 + BigEndian(data[2..10])
    else len7
  }

  function HeadOf(data: seq<Byte>): (r: Head)
    requires |data| >= 2
    ensures r.Complete? ==> 6 <= r.size <= |data|
  {
    if data[1] < 128 then NotMasked
    else
      var offset := PayloadOffset(data[1] % 128);
      if offset > |data| || offset + PayloadLength(data) > |data| then Incomplete
      else
        var size := offset + PayloadLength(data);
        Complete(data[0] >= 128, data[0] % 16, Masked(data[offset..size], data[offset - 4..offset]), size)
  }

  lemma {:induction false} LengthExtends(a: seq<Byte>, b: seq<Byte>)
    requires |a| >= 2 && |a| >= PayloadOffset(a[1] % 128)
    ensures PayloadLength(a + b) == PayloadLength(a)
  {
    hide BigEndian;
    assert a[1] % 128 == 127 ==> (a + b)[2..10] == a[2..10];
  }

  /** More bytes behind a complete frame do not change it. */
  lemma {:induction false} HeadExtends(a: seq<Byte>, b: seq<Byte>)
    requires |a| >= 2 && HeadOf(a).Complete?
    ensures HeadOf(a + b) == HeadOf(a)
  {
    var offset := PayloadOffset(a[1] % 128);
    LengthExtends(a, b);
    hide Masked, PayloadLength;
    var size := offset + PayloadLength(a);
    SliceExtends(a, b, offset, size);
    SliceExtends(a, b, offset - 4, offset);
  }

  lemma {:induction false} SliceExtends(a: seq<Byte>, b: seq<Byte>, i: nat, j: nat)
    requires i <= j <= |a|
    ensures (a + b)[i..j] == a[i..j]
  {
  }

  // ---- one call of Decode ----

  datatype ContentType =
    Unset | ContentText | ContentBin | ContentUnknown | NotComplete | ControlClose | ControlPing | ControlPong

  datatype Fragment = Fragment(opcode: nat, payload: seq<Byte>)

  /** The return value, *out, *content_type, *beMore, and the decoder afterwards. */
  datatype Outcome = Outcome(
    length: int, out: seq<Byte>, kind: ContentType, more: bool, rest: seq<Byte>, cache: seq<Fragment>)

  function Payloads(cache: seq<Fragment>): (r: seq<Byte>)
  {
    if cache == [] then [] else Payloads(cache[..|cache| - 1]) + cache[|cache| - 1].payload
  }

  /** The content type after the loop over the cached fragments. */
  function KindOf(cache: seq<Fragment>, kind: ContentType): (r: ContentType)
  {
    if cache == [] then kind else ByOpcode(cache[|cache| - 1].opcode, KindOf(cache[..|cache| - 1], kind))
  }

  lemma {:induction false} NoFragments()
    ensures Payloads([]) == []
    ensures forall k :: KindOf([], k) == k
  {
  }

  function ByOpcode(opcode: nat, kind: ContentType): (r: ContentType)
  {
    if opcode == 1 then ContentText else if opcode == 2 then ContentBin else kind
  }

  /** What Decode does with a complete frame that has rest behind it. */
  function FrameOutcome(fin: bool, opcode: nat, payload: seq<Byte>, rest: seq<Byte>, cache: seq<Fragment>): (r: Outcome)
    ensures r.rest == rest && (r.more ==> 5 < |rest|)
  {
    var more := |rest| > 5;
    if opcode == 8 then Outcome(0, [], ControlClose, false, rest, cache)
    else if opcode == 10 then Outcome(0, [], ControlPong, more, rest, cache)
    else if opcode != 9 && opcode > 2 then Outcome(0, [], ContentUnknown, false, rest, cache)
    else
      var kind := if opcode == 9 then ControlPing else Unset;
      if !fin then Outcome(0, [], NotComplete, more, rest, cache + [Fragment(opcode, payload)])
      else if Payloads(cache) != [] then
        var message := Payloads(cache) + payload;
        Outcome(|message|, message, KindOf(cache, kind), more, rest, [])
      else Outcome(|payload|, payload, ByOpcode(opcode, kind), more, rest, cache)
  }

  /** Decode on a buffer of at least two bytes, after the handshake. */
  function DecodeOf(data: seq<Byte>, cache: seq<Fragment>): (r: Outcome)
    requires |data| >= 2
    ensures r.more ==> 5 < |r.rest| < |data|
  {
    match HeadOf(data)
    case NotMasked => Outcome(-1, [], Unset, false, [], cache)
    case Incomplete => Outcome(0, [], NotComplete, false, data, cache)
    case Complete(fin, opcode, payload, size) => FrameOutcome(fin, opcode, payload, data[size..], cache)
  }

  // ---- the loop of do_received_data ----

  datatype Reason = PeerClose | UnknownOpcode | NoReason

  /** What the server does; Undetermined where the code reads a content type nobody set. */
  datatype Event =
    | Text(message: seq<Byte>)
    | Binary(message: seq<Byte>)
    | PongSent(payload: seq<Byte>)
    | Disconnect(reason: Reason)
    | Undetermined

  function Reaction(length: int, out: seq<Byte>, kind: ContentType): (r: seq<Event>)
  {
    if length < 0 then [Disconnect(NoReason)]
    else if kind == Unset then [Undetermined]
    else if length > 0 && kind == ContentText then [Text(out)]
    else if length > 0 && kind == ContentBin then [Binary(out)]
    else if length > 0 && kind == ControlPing then [PongSent(out)]
    else if length == 0 && kind == ControlClose then [Disconnect(PeerClose)]
    else if length == 0 && kind == ContentUnknown then [Disconnect(UnknownOpcode)]
    else []
  }

  predicate Closes(events: seq<Event>)
  {
    events != [] && events[|events| - 1].Disconnect?
  }

  /** What one receive leads to: the events, the bytes left in the buffer and the cached fragments. */
  datatype Drained = Drained(events: seq<Event>, rest: seq<Byte>, cache: seq<Fragment>)

  function After(first: seq<Event>, d: Drained): (r: Drained)
  {
    d.(events := first + d.events)
  }

  function Drain(data: seq<Byte>, cache: seq<Fragment>): (r: Drained)
    requires |data| >= 2
    decreases |data|
  {
    var o := DecodeOf(data, cache);
    var events := Reaction(o.length, o.out, o.kind);
    if o.more then After(events, Drain(o.rest, o.cache)) else Drained(events, o.rest, o.cache)
  }
}
