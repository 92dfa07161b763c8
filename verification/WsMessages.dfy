/** What the frames of RFC 6455 mean, and exactly when the decoder agrees. */
module WsMessages {
  import opened Arith
  import opened Bytes
  import opened WsFrames
  import opened WsStream

  // ---- frames on the wire (section 5.2) ----

  /** A masked frame; wide frames carry their length in 16 bits. */
  datatype Frame = Frame(fin: bool, rsv: nat, opcode: nat, wide: bool, mask: seq<Byte>, payload: seq<Byte>)

  predicate ValidFrame(f: Frame)
  {
    f.rsv < 8 && f.opcode < 16 && |f.mask| == 4 && |f.payload| < if f.wide then 0x10000 else 126
  }

  function Header(f: Frame): (r: seq<Byte>)
    requires ValidFrame(f)
  {
    [(if f.fin then 128 else 0) + f.rsv * 16 + f.opcode]
    + if f.wide then [128 + 126, |f.payload| / 256, |f.payload| % 256] else [128 + |f.payload|]
  }

  function Wire(f: Frame): (r: seq<Byte>)
    requires ValidFrame(f)
    ensures |r| >= 6
  {
    Header(f) + f.mask + Masked(f.payload, f.mask)
  }

  predicate AllValid(fs: seq<Frame>)
  {
    forall i | 0 <= i < |fs| :: ValidFrame(fs[i])
  }

  function WireAll(fs: seq<Frame>): (r: seq<Byte>)
    requires AllValid(fs)
    ensures fs != [] ==> |r| >= 6
  {
    if fs == [] then [] else Wire(fs[0]) + WireAll(fs[1..])
  }

  /** A frame is found whole, whatever follows it. */
  lemma {:induction false} WireRead(f: Frame, next: seq<Byte>)
    requires ValidFrame(f)
    ensures HeadOf(Wire(f) + next) == Complete(f.fin, f.opcode, f.payload, |Wire(f)|)
  {
    hide Masked, Xor;
    var data, h := Wire(f) + next, |Header(f)|;
    assert forall i | 0 <= i < h :: data[i] == Header(f)[i];
    assert data[1] % 128 == if f.wide then 126 else |f.payload|;
    assert data[h..h + 4] == f.mask;
    assert data[h + 4..|Wire(f)|] == Masked(f.payload, f.mask);
    MaskedTwice(f.payload, f.mask);
  }

  // ---- lengths of 64 bits ----

  /** A number in k bytes, high byte first. */
  function LengthBytes(n: nat, k: nat): (r: seq<Byte>)
    ensures |r| == k
  {
    if k == 0 then [] else LengthBytes(n / 256, k - 1) + [n % 256]
  }

  lemma {:induction false} LengthBytesMean(n: nat, k: nat)
    requires n < Pow(256, k)
    ensures BigEndian(LengthBytes(n, k)) == n
  {
    if k > 0 {
      PowNext(256, k);
      LengthBytesMean(n / 256, k - 1);
      assert LengthBytes(n, k)[..k - 1] == LengthBytes(n / 256, k - 1);
    }
  }

  /** A masked frame with its length in 64 bits. */
  function LongWire(f: Frame): (r: seq<Byte>)
    requires f.rsv < 8 && f.opcode < 16 && |f.mask| == 4
  {
    [(if f.fin then 128 else 0) + f.rsv * 16 + f.opcode, 255] + LengthBytes(|f.payload|, 8) + f.mask
    + Masked(f.payload, f.mask)
  }

  lemma {:induction false} LongParts(f: Frame, next: seq<Byte>)
    requires f.rsv < 8 && f.opcode < 16 && |f.mask| == 4 && |f.payload| < Pow(256, 8)
    ensures var data := LongWire(f) + next;
      && |LongWire(f)| == 14 + |f.payload| && data[0] == (if f.fin then 128 else 0) + f.rsv * 16 + f.opcode
      && data[1] == 255 && data[10..14] == f.mask && PayloadLength(data) == 127 + |f.payload|
      && (|next| >= 127 ==> data[14..141 + |f.payload|] == Masked(f.payload, f.mask) + next[..127])
  {
    hide Masked, Pow;
    var data := LongWire(f) + next;
    LengthBytesMean(|f.payload|, 8);
    assert data[2..10] == LengthBytes(|f.payload|, 8);
    assert data[10..14] == f.mask;
  }

  /** The decoder takes a 64-bit length for 127 more than it is: the frame is not complete before 127 bytes of what
      comes behind it are there, and these become part of the payload. */
  lemma {:induction false} LongSwallows(f: Frame, next: seq<Byte>)
    requires f.rsv < 8 && f.opcode < 16 && |f.mask| == 4 && |f.payload| < Pow(256, 8)
    ensures var h := HeadOf(LongWire(f) + next);
      if |next| < 127 then h == Incomplete
      else
        && h.Complete? && h.fin == f.fin && h.opcode == f.opcode && h.size == |LongWire(f)| + 127
        && |h.payload| == |f.payload| + 127 && h.payload[..|f.payload|] == f.payload
  {
    LongParts(f, next);
    hide LongWire, PayloadLength, Pow;
    if |next| >= 127 {
      UnmaskedPrefix(f.payload, next[..127], f.mask);
    }
    hide Masked;
  }

  /** Undoing the mask does not depend on what follows. */
  lemma {:induction false} UnmaskedPrefix(p: seq<Byte>, more: seq<Byte>, mask: seq<Byte>)
    requires |mask| == 4
    ensures Masked(Masked(p, mask) + more, mask)[..|p|] == p
  {
    hide Xor;
    MaskedTwice(p, mask);
    var m := Masked(p, mask);
    assert Masked(m + more, mask)[..|p|] == Masked(m, mask);
  }

  /** A frame that is still arriving. */
  predicate Arriving(tail: seq<Byte>, g: Frame)
  {
    ValidFrame(g) && |tail| < |Wire(g)| && tail == Wire(g)[..|tail|]
  }

  lemma {:induction false} ArrivingRead(tail: seq<Byte>, g: Frame)
    requires Arriving(tail, g)
    ensures |tail| >= 2 ==> HeadOf(tail) == Incomplete
  {
    hide Masked, Xor;
    if |tail| >= 2 {
      var h := |Header(g)|;
      assert forall i | 0 <= i < h && i < |tail| :: tail[i] == Header(g)[i];
      assert tail[1] % 128 == if g.wide then 126 else |g.payload|;
    }
  }

  lemma {:induction false} WireMasked(fs: seq<Frame>, tail: seq<Byte>, g: Frame)
    requires AllValid(fs) && Arriving(tail, g)
    ensures AllMasked(WireAll(fs) + tail)
  {
    hide Wire, HeadOf, Arriving;
    if fs == [] {
      assert WireAll(fs) + tail == tail;
      ArrivingRead(tail, g);
    } else {
      var more := WireAll(fs[1..]) + tail;
      WireMasked(fs[1..], tail, g);
      WireRead(fs[0], more);
      assert WireAll(fs) + tail == Wire(fs[0]) + more;
      assert (Wire(fs[0]) + more)[|Wire(fs[0])|..] == more;
    }
  }

  // ---- messages (sections 5.4 and 5.5) ----

  /** Whether a fragmented message is open, its type and its payload so far. */
  datatype Pending = NoMessage | Open(binary: bool, sofar: seq<Byte>)

  predicate Legal(p: Pending, f: Frame)
  {
    || (f.opcode == 0 && p.Open?)
    || ((f.opcode == 1 || f.opcode == 2) && p.NoMessage?)
    || ((f.opcode == 8 || f.opcode == 9 || f.opcode == 10) && f.fin)
  }

  function Whole(binary: bool, message: seq<Byte>): (r: seq<Event>)
  {
    if binary then [Binary(message)] else [Text(message)]
  }

  /** The events the standard asks for: a whole message is delivered, every ping is answered, a close ends it. */
  function Meant(p: Pending, f: Frame): (r: seq<Event>)
    requires Legal(p, f)
  {
    if f.opcode == 8 then [Disconnect(PeerClose)]
    else if f.opcode == 9 then [PongSent(f.payload)]
    else if f.opcode == 10 || !f.fin then []
    else if f.opcode == 0 then Whole(p.binary, p.sofar + f.payload)
    else Whole(f.opcode == 2, f.payload)
  }

  function Then(p: Pending, f: Frame): (r: Pending)
    requires Legal(p, f)
  {
    if f.opcode >= 8 then p
    else if f.fin then NoMessage
    else if f.opcode == 0 then p.(sofar := p.sofar + f.payload)
    else Open(f.opcode == 2, f.payload)
  }

  /** The frames the decoder treats as the standard says. */
  predicate Handled(p: Pending, f: Frame)
    requires Legal(p, f)
  {
    if f.opcode == 9 then f.payload != [] && (p.Open? ==> p.sofar == [])
    else if f.opcode == 10 || f.opcode == 8 || !f.fin then true
    else if f.opcode == 0 then p.sofar != []
    else f.payload != []
  }

  function KindFor(binary: bool): (r: ContentType)
  {
    if binary then ContentBin else ContentText
  }

  /** The cached fragments are those of the open message. */
  ghost predicate Holds(cache: seq<Fragment>, p: Pending)
  {
    match p
    case NoMessage => cache == []
    case Open(binary, sofar) =>
      cache != [] && Payloads(cache) == sofar && forall k :: KindOf(cache, k) == KindFor(binary)
  }

  /** The decoder's reaction to one frame. */
  function Reacts(data: seq<Byte>, cache: seq<Fragment>): (r: seq<Event>)
    requires |data| >= 2
  {
    var o := DecodeOf(data, cache);
    Reaction(o.length, o.out, o.kind)
  }

  lemma {:induction false} CacheGrows(cache: seq<Fragment>, x: Fragment, k: ContentType)
    ensures Payloads(cache + [x]) == Payloads(cache) + x.payload
    ensures KindOf(cache + [x], k) == ByOpcode(x.opcode, KindOf(cache, k))
  {
    assert (cache + [x])[..|cache|] == cache;
  }

  lemma {:induction false} HoldsMore(cache: seq<Fragment>, p: Pending, f: Frame)
    requires Holds(cache, p) && Legal(p, f) && f.opcode <= 2 && !f.fin
    ensures Holds(cache + [Fragment(f.opcode, f.payload)], Then(p, f))
  {
    var x := Fragment(f.opcode, f.payload);
    forall k
      ensures KindOf(cache + [x], k) == KindFor(Then(p, f).binary)
    {
      CacheGrows(cache, x, k);
    }
    CacheGrows(cache, x, Unset);
  }

  lemma {:induction false} DecodesAs(f: Frame, next: seq<Byte>, cache: seq<Fragment>)
    requires ValidFrame(f)
    ensures DecodeOf(Wire(f) + next, cache) == FrameOutcome(f.fin, f.opcode, f.payload, next, cache)
  {
    WireRead(f, next);
    assert (Wire(f) + next)[|Wire(f)|..] == next;
    hide HeadOf, Wire, FrameOutcome;
  }

  ghost predicate InStep(o: Outcome, p: Pending, f: Frame)
    requires Legal(p, f)
  {
    Reaction(o.length, o.out, o.kind) == Meant(p, f) && Holds(o.cache, Then(p, f))
  }

  lemma {:induction false} PartExactly(f: Frame, next: seq<Byte>, cache: seq<Fragment>, p: Pending)
    requires Legal(p, f) && Holds(cache, p) && f.opcode <= 2 && !f.fin
    ensures InStep(FrameOutcome(f.fin, f.opcode, f.payload, next, cache), p, f)
  {
    HoldsMore(cache, p, f);
    hide Holds, Payloads, KindOf;
  }

  lemma {:induction false} FinalExactly(f: Frame, next: seq<Byte>, cache: seq<Fragment>, p: Pending)
    requires Legal(p, f) && Holds(cache, p) && f.opcode <= 2 && f.fin
    ensures InStep(FrameOutcome(f.fin, f.opcode, f.payload, next, cache), p, f) <==> Handled(p, f)
  {
    hide Payloads, KindOf;
    NoFragments();
    if p.Open? {
      assert KindOf(cache, Unset) == KindFor(p.binary);
    }
  }

  lemma {:induction false} PingExactly(f: Frame, next: seq<Byte>, cache: seq<Fragment>, p: Pending)
    requires Legal(p, f) && Holds(cache, p) && f.opcode == 9
    ensures InStep(FrameOutcome(f.fin, f.opcode, f.payload, next, cache), p, f) <==> Handled(p, f)
  {
    hide Payloads, KindOf;
    NoFragments();
    if p.Open? {
      assert KindOf(cache, ControlPing) == KindFor(p.binary);
    }
  }

  /** For every frame the standard allows at this point, the decoder does what the standard says, and stays in step
      with the open message, exactly when the frame is one of those it handles. */
  lemma {:induction false} HandledExactly(f: Frame, next: seq<Byte>, cache: seq<Fragment>, p: Pending)
    requires ValidFrame(f) && Legal(p, f) && Holds(cache, p)
    ensures var data := Wire(f) + next;
      (Reacts(data, cache) == Meant(p, f) && Holds(DecodeOf(data, cache).cache, Then(p, f))) <==> Handled(p, f)
  {
    DecodesAs(f, next, cache);
    hide DecodeOf, Wire, Holds;
    if f.opcode <= 2 && !f.fin {
      PartExactly(f, next, cache, p);
    } else if f.opcode <= 2 {
      FinalExactly(f, next, cache, p);
    } else if f.opcode == 9 {
      PingExactly(f, next, cache, p);
    }
  }

  // ---- frames the decoder does not handle ----

  function Control(opcode: nat, payload: seq<Byte>): (r: Frame)
  {
    Frame(true, 0, opcode, false, [0, 0, 0, 0], payload)
  }

  /** A ping without payload is due an answer and gets none. */
  lemma {:induction false} EmptyPing(next: seq<Byte>)
    ensures var f := Control(9, []);
      ValidFrame(f) && Legal(NoMessage, f) && Meant(NoMessage, f) == [PongSent([])] && Reacts(Wire(f) + next, []) == []
  {
    DecodesAs(Control(9, []), next, []);
    NoFragments();
    hide DecodeOf, Wire, Payloads;
  }

  /** A ping between the fragments "A" and "C" of a text: "B" in the ping is delivered as the end of the text, and the
      cache is emptied. */
  lemma {:induction false} PingInMessage(next: seq<Byte>)
    ensures var p, f, cache := Open(false, ['A' as int]), Control(9, ['B' as int]), [Fragment(1, ['A' as int])];
      && ValidFrame(f) && Legal(p, f) && Holds(cache, p) && Meant(p, f) == [PongSent(['B' as int])]
      && Reacts(Wire(f) + next, cache) == [Text(['A' as int, 'B' as int])]
      && DecodeOf(Wire(f) + next, cache).cache == []
  {
    var cache := [Fragment(1, ['A' as int])];
    DecodesAs(Control(9, ['B' as int]), next, cache);
    OneFragment(1, ['A' as int]);
    assert ['A' as int] + ['B' as int] == ['A' as int, 'B' as int];
    hide DecodeOf, Wire, Payloads, KindOf;
  }

  lemma {:induction false} OneFragment(opcode: nat, payload: seq<Byte>)
    ensures var cache := [Fragment(opcode, payload)];
      Payloads(cache) == payload && forall k :: KindOf(cache, k) == ByOpcode(opcode, k)
  {
    var cache := [Fragment(opcode, payload)];
    NoFragments();
    assert cache[..0] == [];
    forall k
      ensures KindOf(cache, k) == ByOpcode(opcode, k)
    {
      assert KindOf(cache[..0], k) == k;
    }
  }

  /** An empty text message is not delivered. */
  lemma {:induction false} EmptyMessage(next: seq<Byte>)
    ensures var f := Control(1, []);
      ValidFrame(f) && Legal(NoMessage, f) && Meant(NoMessage, f) == [Text([])] && Reacts(Wire(f) + next, []) == []
  {
    DecodesAs(Control(1, []), next, []);
    NoFragments();
    hide DecodeOf, Wire, Payloads;
  }

  /** The final fragment "B" of a text that began with an empty one: nobody has set the content type. */
  lemma {:induction false} LateContent(next: seq<Byte>)
    ensures var p, f, cache := Open(false, []), Control(0, ['B' as int]), [Fragment(1, [])];
      && ValidFrame(f) && Legal(p, f) && Holds(cache, p) && Meant(p, f) == [Text(['B' as int])]
      && Reacts(Wire(f) + next, cache) == [Undetermined]
  {
    var cache := [Fragment(1, [])];
    DecodesAs(Control(0, ['B' as int]), next, cache);
    OneFragment(1, []);
    assert [] + ['B' as int] == ['B' as int];
    hide DecodeOf, Wire, Payloads, KindOf;
  }

  // ---- frames the standard does not allow ----

  /** Other opcodes close the connection. */
  lemma {:induction false} UnknownCloses(f: Frame, next: seq<Byte>, cache: seq<Fragment>)
    requires ValidFrame(f) && (3 <= f.opcode <= 7 || 11 <= f.opcode <= 15)
    ensures Reacts(Wire(f) + next, cache) == [Disconnect(UnknownOpcode)]
  {
    DecodesAs(f, next, cache);
    hide DecodeOf, Wire;
  }

  /** So does a frame without a mask, and nothing of it is kept. */
  lemma {:induction false} UnmaskedCloses(data: seq<Byte>, cache: seq<Fragment>)
    requires |data| >= 2 && data[1] < 0x80
    ensures Reacts(data, cache) == [Disconnect(NoReason)] && DecodeOf(data, cache).rest == []
  {
  }

  // ---- whole streams ----

  /** Every frame up to a close is legal where it stands and one the decoder handles. */
  predicate AllHandled(fs: seq<Frame>, p: Pending)
  {
    fs == []
    || (Legal(p, fs[0]) && Handled(p, fs[0]) && (fs[0].opcode == 8 || AllHandled(fs[1..], Then(p, fs[0]))))
  }

  /** What the standard asks for, frame by frame, up to a close. */
  function Expected(fs: seq<Frame>, p: Pending): (r: seq<Event>)
    requires AllHandled(fs, p)
  {
    if fs == [] then []
    else Meant(p, fs[0]) + if fs[0].opcode == 8 then [] else Expected(fs[1..], Then(p, fs[0]))
  }

  function PendingAfter(fs: seq<Frame>, p: Pending): (r: Pending)
    requires AllHandled(fs, p)
  {
    if fs == [] || fs[0].opcode == 8 then p else PendingAfter(fs[1..], Then(p, fs[0]))
  }

  lemma {:induction false} WireStep(f: Frame, next: seq<Byte>, cache: seq<Fragment>)
    requires ValidFrame(f) && (f.opcode <= 2 || 8 <= f.opcode <= 10)
    ensures var o := DecodeOf(Wire(f) + next, cache);
      o.rest == next && (o.more <==> f.opcode != 8 && |next| > 5)
  {
    DecodesAs(f, next, cache);
    hide DecodeOf, Wire;
  }

  lemma {:induction false} MeantCloses(f: Frame, p: Pending)
    requires Legal(p, f)
    ensures Closes(Meant(p, f)) <==> f.opcode == 8
  {
  }

  lemma {:induction false} DrainFrames(fs: seq<Frame>, tail: seq<Byte>, g: Frame, cache: seq<Fragment>, p: Pending)
    requires AllValid(fs) && AllHandled(fs, p) && Holds(cache, p) && Arriving(tail, g)
    requires |WireAll(fs) + tail| >= 2
    ensures var d := Drain(WireAll(fs) + tail, cache);
      && d.events == Expected(fs, p)
      && (!Closes(d.events) ==> d.rest == tail && Holds(d.cache, PendingAfter(fs, p)))
  {
    hide DecodeOf, Wire, HeadOf, Holds, Closes, Drain, Reaction;
    if fs == [] {
      assert WireAll(fs) + tail == tail;
      ArrivingRead(tail, g);
      NothingYet(tail, cache);
    } else {
      var f, more := fs[0], WireAll(fs[1..]) + tail;
      assert WireAll(fs) + tail == Wire(f) + more;
      HandledExactly(f, more, cache, p);
      WireStep(f, more, cache);
      DrainOnce(Wire(f) + more, cache);
      MeantCloses(f, p);
      if f.opcode != 8 {
        var o := DecodeOf(Wire(f) + more, cache);
        if |more| > 5 {
          DrainFrames(fs[1..], tail, g, o.cache, Then(p, f));
          ClosesLater(Meant(p, f), Expected(fs[1..], Then(p, f)));
        } else {
          assert fs[1..] == [] && more == tail;
        }
      }
    }
  }

  /** When no receive leaves a lone byte to decode. */
  lemma {:induction false} DeliveredInStep(chunks: seq<seq<Byte>>, fs: seq<Frame>, tail: seq<Byte>, g: Frame)
    requires AllValid(fs) && AllHandled(fs, NoMessage) && Arriving(tail, g)
    requires chunks != [] && NoLoneByte(chunks) && Concat(chunks) == WireAll(fs) + tail
    ensures var r := Receive(chunks);
      && r.events == Expected(fs, NoMessage)
      && (!Closes(r.events) ==> r.rest == tail && Holds(r.cache, PendingAfter(fs, NoMessage)))
  {
    WireMasked(fs, tail, g);
    ChunkIndependent(chunks);
    DrainFrames(fs, tail, g, [], NoMessage);
  }

  /** A prefix of a stream of frames is whole frames and one that is still arriving. */
  lemma {:induction false} PrefixArrives(fs: seq<Frame>, tail: seq<Byte>, g: Frame, n: nat)
    returns (k: nat, t: seq<Byte>, h: Frame)
    requires AllValid(fs) && Arriving(tail, g) && n <= |WireAll(fs) + tail|
    ensures k <= |fs| && Arriving(t, h) && (h in fs || h == g)
    ensures (WireAll(fs) + tail)[..n] == WireAll(fs[..k]) + t
  {
    hide Wire;
    if fs == [] {
      k, t, h := 0, tail[..n], g;
      assert WireAll(fs) + tail == tail && WireAll(fs[..0]) + t == t;
    } else {
      var w, more := Wire(fs[0]), WireAll(fs[1..]) + tail;
      assert WireAll(fs) + tail == w + more;
      if n < |w| {
        k, t, h := 0, w[..n], fs[0];
        assert (w + more)[..n] == w[..n] && WireAll(fs[..0]) + t == t;
      } else {
        k, t, h := PrefixArrives(fs[1..], tail, g, n - |w|);
        assert (w + more)[..n] == w + more[..n - |w|];
        k := k + 1;
        assert fs[..k][0] == fs[0] && fs[..k][1..] == fs[1..][..k - 1];
        assert w + (WireAll(fs[1..][..k - 1]) + t) == WireAll(fs[..k]) + t;
      }
    }
  }

  lemma {:induction false} HandledPrefix(fs: seq<Frame>, k: nat, p: Pending)
    requires k <= |fs| && AllHandled(fs, p)
    ensures AllHandled(fs[..k], p)
  {
    if k > 0 && fs[0].opcode != 8 {
      HandledPrefix(fs[1..], k - 1, Then(p, fs[0]));
      assert fs[..k][1..] == fs[1..][..k - 1];
    }
  }

  /** What has been received ends with a frame. */
  ghost predicate FrameEnd(received: seq<Byte>, fs: seq<Frame>)
    requires AllValid(fs)
  {
    exists k: nat | k <= |fs| :: received == WireAll(fs[..k])
  }

  /** No receive brings the first byte of a frame and nothing else. */
  ghost predicate NoFirstByteAlone(chunks: seq<seq<Byte>>, fs: seq<Frame>)
    requires AllValid(fs)
  {
    forall i: nat | i < |chunks| :: chunks[i] != [] && (|chunks[i]| == 1 ==> !FrameEnd(Concat(chunks[..i]), fs))
  }

  lemma {:induction false} PrefixOf(chunks: seq<seq<Byte>>, i: nat)
    requires i <= |chunks|
    ensures Concat(chunks[..i]) <= Concat(chunks)
  {
    if i == |chunks| {
      assert chunks[..i] == chunks;
    } else {
      PrefixOf(chunks[..|chunks| - 1], i);
      assert chunks[..|chunks| - 1][..i] == chunks[..i];
    }
  }

  /** After i receives: the frames that are whole, and the bytes of the one still arriving, which are unread. */
  lemma {:induction false} AfterReceives(chunks: seq<seq<Byte>>, fs: seq<Frame>, tail: seq<Byte>, g: Frame, i: nat)
    returns (k: nat, t: seq<Byte>, h: Frame)
    requires AllValid(fs) && AllHandled(fs, NoMessage) && Arriving(tail, g)
    requires Concat(chunks) == WireAll(fs) + tail && i <= |chunks| && NoLoneByte(chunks[..i])
    ensures k <= |fs| && Arriving(t, h) && (h in fs || h == g) && Concat(chunks[..i]) == WireAll(fs[..k]) + t
    ensures var r := Receive(chunks[..i]); Closes(r.events) || r.rest == t
  {
    hide Wire, WireAll, AllHandled, Closes, Arriving, Concat, NoLoneByte, Holds;
    PrefixOf(chunks, i);
    k, t, h := PrefixArrives(fs, tail, g, |Concat(chunks[..i])|);
    if i > 0 {
      HandledPrefix(fs, k, NoMessage);
      DeliveredInStep(chunks[..i], fs[..k], t, h);
    } else {
      NothingReceived(chunks[..i]);
    }
  }

  lemma {:induction false} NothingReceived(chunks: seq<seq<Byte>>)
    requires chunks == []
    ensures Concat(chunks) == [] && Receive(chunks) == Drained([], [], [])
  {
  }

  lemma {:induction false} OneMoreReceive(chunks: seq<seq<Byte>>, i: nat)
    requires 0 < i <= |chunks| && NoLoneByte(chunks[..i - 1])
    requires var r := Receive(chunks[..i - 1]); Closes(r.events) || |r.rest| + |chunks[i - 1]| >= 2
    ensures NoLoneByte(chunks[..i])
  {
    assert chunks[..i][..i - 1] == chunks[..i - 1];
  }

  /** Then no lone byte is left to decode. */
  lemma {:induction false} NeverLone(chunks: seq<seq<Byte>>, fs: seq<Frame>, tail: seq<Byte>, g: Frame, i: nat)
    requires AllValid(fs) && AllHandled(fs, NoMessage) && Arriving(tail, g)
    requires NoFirstByteAlone(chunks, fs) && Concat(chunks) == WireAll(fs) + tail && i <= |chunks|
    ensures NoLoneByte(chunks[..i])
  {
    if i > 0 {
      hide WireAll, AllHandled, Closes, Arriving, Concat, NoLoneByte, Receive;
      NeverLone(chunks, fs, tail, g, i - 1);
      var k, t, h := AfterReceives(chunks, fs, tail, g, i - 1);
      if t == [] {
        assert WireAll(fs[..k]) + t == WireAll(fs[..k]);
      }
      OneMoreReceive(chunks, i);
    }
  }

  /** Masked frames the decoder handles, cut into receives in any way in which none brings the first byte of a frame
      alone: the server delivers exactly the messages and answers that the standard asks for, in order; and while the
      connection is open the buffer holds exactly the bytes of the frame still arriving and the cache the open
      message. */
  lemma {:induction false} MessagesDelivered(chunks: seq<seq<Byte>>, fs: seq<Frame>, tail: seq<Byte>, g: Frame)
    requires AllValid(fs) && AllHandled(fs, NoMessage) && Arriving(tail, g)
    requires chunks != [] && NoFirstByteAlone(chunks, fs) && Concat(chunks) == WireAll(fs) + tail
    ensures NoLoneByte(chunks)
    ensures var r := Receive(chunks);
      && r.events == Expected(fs, NoMessage)
      && (!Closes(r.events) ==> r.rest == tail && Holds(r.cache, PendingAfter(fs, NoMessage)))
  {
    hide *;
    NeverLone(chunks, fs, tail, g, |chunks|);
    assert chunks[..|chunks|] == chunks;
    DeliveredInStep(chunks, fs, tail, g);
  }

  /** When every frame fits a buffer, there is room left in it before every receive. */
  lemma {:induction false} RoomLeft(chunks: seq<seq<Byte>>, fs: seq<Frame>, tail: seq<Byte>, g: Frame, size: nat,
      i: nat)
    requires AllValid(fs) && AllHandled(fs, NoMessage) && Arriving(tail, g)
    requires NoFirstByteAlone(chunks, fs) && Concat(chunks) == WireAll(fs) + tail
    requires |Wire(g)| <= size && forall f | f in fs :: |Wire(f)| <= size
    requires i <= |chunks|
    ensures var r := Receive(chunks[..i]); Closes(r.events) || |r.rest| < size
  {
    hide Wire, WireAll, AllHandled, Closes, Receive, NoFirstByteAlone;
    NeverLone(chunks, fs, tail, g, i);
    var k, t, h := AfterReceives(chunks, fs, tail, g, i);
  }
}
