/** wsDecoder of wsServer.h after the handshake, with its sliding buffer, and the loop of wsServer::do_received_data. */
module WsDecoder {
  import opened Arith
  import opened Bytes
  import opened WsFrames
  import opened WsStream

  const FRAME_LEN: nat := 40959

  class Decoder {
    /** m_frame: one byte more than m_frame_len. */
    const frame: array<Byte>
    var dataLen: nat
    var cache: seq<Fragment>

    ghost predicate Valid()
      reads this
    {
      frame.Length == FRAME_LEN + 1 && dataLen <= FRAME_LEN
    }

    /** The bytes received and not consumed. */
    ghost function Unread(): (r: seq<Byte>)
      requires Valid()
      reads this, frame
    {
      frame[..dataLen]
    }

    constructor ()
      ensures Valid() && Unread() == [] && cache == [] && fresh(frame)
    {
      frame := new Byte[FRAME_LEN + 1];
      dataLen := 0;
      cache := [];
    }

    /** Where the next receive writes, and how much it may. */
    method GetBuffer() returns (at: nat, room: nat)
      requires Valid()
      ensures at == dataLen && at + room == 40959
    {
      return dataLen, FRAME_LEN - dataLen;
    }

    method Reset()
      requires Valid()
      modifies this
      ensures Valid() && Unread() == [] && cache == []
    {
      cache := [];
      dataLen := 0;
    }

    /** The copy of the remaining bytes to the front of m_frame, lowest first. */
    method Consume(size: nat)
      requires Valid() && size <= dataLen
      modifies `dataLen, frame
      ensures Valid() && Unread() == old(Unread())[size..]
    {
      dataLen := dataLen - size;
      var i := 0;
      while i < dataLen
        invariant 0 <= i <= dataLen
        invariant forall j | 0 <= j < frame.Length :: frame[j] == old(frame[if j < i then j + size else j])
        modifies frame
      {
        frame[i] := frame[i + size];
        i := i + 1;
      }
    }

    /** The loop that undoes the mask. */
    method Unmask(offset: nat, length: nat) returns (buff: array<Byte>)
      requires Valid() && 4 <= offset && offset + length <= dataLen
      ensures fresh(buff) && buff.Length == length
      ensures buff[..] == Masked(frame[offset..offset + length], frame[offset - 4..offset])
    {
      hide XorBits;
      buff := new Byte[length];
      var i := 0;
      while i < length
        invariant 0 <= i <= length
        invariant forall j | 0 <= j < i :: buff[j] == Xor(frame[offset + j], frame[offset - 4 + j % 4])
      {
        buff[i] := Xor(frame[i + offset], frame[offset - 4 + i % 4]);
        i := i + 1;
      }
      var whole, mask := frame[offset..offset + length], frame[offset - 4..offset];
      assert forall j | 0 <= j < length :: buff[j] == Masked(whole, mask)[j];
    }

    /** The eight length bytes, each with its weight, added onto the 127 that announced them. */
    method LongLength() returns (length: nat)
      requires Valid()
      ensures length == 127 + BigEndian(frame[2..10])
    {
      hide Pow, BigEndian;
      length := 127;
      var i := 0;
      NoBytes(frame[2..2]);
      while i < 8
        invariant 0 <= i <= 8 && length == 127 + Weighted(frame[2..2 + i], 8 - i)
      {
        OneMoreByte(frame[2..2 + i], frame[2 + i], 7 - i);
        assert frame[2..2 + i + 1] == frame[2..2 + i] + [frame[2 + i]];
        length := length + frame[2 + i] as int * Pow(256, 7 - i);
        i := i + 1;
      }
      AllBytes(frame[2..10]);
    }

    /** The first part of Decode: the header fields. */
    method ReadHead() returns (masked: bool, fin: bool, opcode: nat, payloadOffset: nat, payloadLength: nat)
      requires Valid() && 1 <= dataLen
      ensures opcode < 16 && (masked <==> frame[1] >= 0x80) && (masked ==> payloadOffset >= 6)
      ensures dataLen >= 2 && !masked ==> HeadOf(Unread()) == NotMasked
      ensures dataLen >= 2 && masked && payloadLength + payloadOffset > dataLen ==> HeadOf(Unread()) == Incomplete
      ensures masked && payloadLength + payloadOffset <= dataLen ==>
        var size := payloadOffset + payloadLength;
        && 4 <= payloadOffset
        && HeadOf(Unread())
           == Complete(fin, opcode, Masked(frame[payloadOffset..size], frame[payloadOffset - 4..payloadOffset]), size)
    {
      hide BigEndian, Masked, HeadOf;
      ghost var data := Unread();
      fin, opcode := frame[0] >= 0x80, frame[0] % 16;
      masked := frame[1] >= 0x80;
      if !masked {
        if dataLen >= 2 {
          HeadNotMasked(data);
        }
        return masked, fin, opcode, 0, 0;
      }
      payloadLength := frame[1] % 128;
      if payloadLength == 126 {
        payloadOffset := 8;
        payloadLength := frame[2] as int * 256 + frame[3] as int;
      } else if payloadLength == 127 {
        payloadOffset := 14;
        payloadLength := LongLength();
        assert frame[..][2..10] == frame[2..10];
      } else {
        payloadOffset := 6;
      }
      assert payloadOffset == PayloadOffset(frame[1] % 128) && payloadLength == PayloadLength(frame[..]);
      assert frame[..][..dataLen] == data;
      if payloadLength + payloadOffset > dataLen {
        if dataLen >= 2 {
          HeadPartial(frame[..], dataLen);
        }
      } else {
        HeadWhole(frame[..], dataLen);
        var size := payloadLength + payloadOffset;
        assert frame[..][payloadOffset..size] == frame[payloadOffset..size];
        assert frame[..][payloadOffset - 4..payloadOffset] == frame[payloadOffset - 4..payloadOffset];
      }
    }

    /** The second part of Decode, on a complete frame. */
    method TakeFrame(fin: bool, opcode: nat, payloadOffset: nat, payloadLength: nat)
        returns (length: int, out: seq<Byte>, contentType: ContentType, beMore: bool)
      requires Valid() && 4 <= payloadOffset && payloadOffset + payloadLength <= dataLen
      modifies this, frame
      ensures Valid()
      ensures var size := payloadOffset + payloadLength;
        Outcome(length, out, contentType, beMore, Unread(), cache)
        == old(FrameOutcome(fin, opcode, Masked(frame[payloadOffset..size], frame[payloadOffset - 4..payloadOffset]),
                            Unread()[size..], cache))
    {
      hide Masked, Payloads, KindOf;
      var size := payloadLength + payloadOffset;
      if opcode == 8 {
        Consume(size);
        return 0, [], ControlClose, false;
      } else if opcode == 10 {
        Consume(size);
        return 0, [], ControlPong, dataLen > 5;
      } else if opcode != 9 && opcode != 1 && opcode != 2 && opcode != 0 {
        Consume(size);
        return 0, [], ContentUnknown, false;
      }
      var buff := Unmask(payloadOffset, payloadLength);
      if !fin {
        cache := cache + [Fragment(opcode, buff[..])];
        Consume(size);
        return 0, [], NotComplete, dataLen > 5;
      }
      contentType := if opcode == 9 then ControlPing else Unset;
      length, out, contentType := Finish(opcode, buff[..], contentType);
      Consume(size);
      beMore := dataLen > 5;
    }

    /** wsDecoder::Decode once recvLen bytes have been stored behind the unread ones. With a single byte unread the
        mask bit it looks at is not there yet: whatever an earlier frame left at that place decides. */
    method Decode(recvLen: nat) returns (length: int, out: seq<Byte>, contentType: ContentType, beMore: bool)
      requires Valid() && 1 <= dataLen + recvLen <= FRAME_LEN
      modifies this, frame
      ensures Valid()
      ensures old(dataLen) + recvLen >= 2 ==>
        Outcome(length, out, contentType, beMore, Unread(), cache)
        == DecodeOf(old(frame[..dataLen + recvLen]), old(cache))
      ensures old(dataLen) + recvLen == 1 ==>
        Outcome(length, out, contentType, beMore, Unread(), cache)
        == LoneByte(old(frame[0]), old(frame[1]), old(cache))
    {
      hide HeadOf, FrameOutcome, Masked;
      dataLen := dataLen + recvLen;
      var masked, fin, opcode, payloadOffset, payloadLength := ReadHead();
      if !masked {
        dataLen := 0;
        return -1, [], Unset, false;
      }
      if payloadLength + payloadOffset > dataLen {
        return 0, [], NotComplete, false;
      }
      length, out, contentType, beMore := TakeFrame(fin, opcode, payloadOffset, payloadLength);
    }

    /** The final fragment: the cached ones go before it when they hold anything. */
    method Finish(opcode: nat, buff: seq<Byte>, kind: ContentType)
        returns (length: nat, out: seq<Byte>, contentType: ContentType)
      modifies `cache
      ensures length == |out|
      ensures if Payloads(old(cache)) != [] then
                out == Payloads(old(cache)) + buff && contentType == KindOf(old(cache), kind) && cache == []
              else out == buff && contentType == ByOpcode(opcode, kind) && cache == old(cache)
    {
      hide Payloads, KindOf;
      NoFragments();
      var total, i := |buff|, 0;
      while i < |cache|
        invariant 0 <= i <= |cache| && total == |Payloads(cache[..i])| + |buff| && cache == old(cache)
        decreases |cache| - i
      {
        OneMoreFragment(cache, i, kind);
        total := total + |cache[i].payload|;
        i := i + 1;
      }
      assert cache[..i] == cache;
      out, contentType := [], kind;
      if total > |buff| {
        i := 0;
        while i < |cache|
          invariant 0 <= i <= |cache| && cache == old(cache)
          invariant out == Payloads(cache[..i]) && contentType == KindOf(cache[..i], kind)
          decreases |cache| - i
        {
          OneMoreFragment(cache, i, kind);
          out := out + cache[i].payload;
          contentType := ByOpcode(cache[i].opcode, contentType);
          i := i + 1;
        }
        assert cache[..i] == cache;
        cache := [];
      } else {
        contentType := ByOpcode(opcode, kind);
      }
      out := out + buff;
      return total, out, contentType;
    }

    /** do_received_data: Decode until it asks for no more, and act on each result. */
    method DoReceivedData(recvLen: nat) returns (events: seq<Event>)
      requires Valid() && 1 <= dataLen + recvLen <= FRAME_LEN
      modifies this, frame
      ensures Valid()
      ensures old(dataLen) + recvLen >= 2 ==>
        Drained(events, Unread(), cache) == Drain(old(frame[..dataLen + recvLen]), old(cache))
      ensures old(dataLen) + recvLen == 1 ==>
        if old(frame[1]) >= 0x80 then Drained(events, Unread(), cache) == Drained([], [old(frame[0])], old(cache))
        else Drained(events, Unread(), cache) == Drained([Disconnect(NoReason)], [], old(cache))
    {
      hide DecodeOf, Drain, Reaction, LoneByte;
      if dataLen + recvLen == 1 {
        LoneReaction(frame[0], frame[1], cache);
        var length, out, contentType, beMore := Decode(recvLen);
        return Reaction(length, out, contentType);
      }
      ghost var whole := Drain(frame[..dataLen + recvLen], cache);
      events := [];
      var received := recvLen;
      var more := true;
      while more
        invariant Valid()
        invariant more ==> 2 <= dataLen + received <= FRAME_LEN
        invariant whole == if more then After(events, Drain(frame[..dataLen + received], cache))
                           else Drained(events, Unread(), cache)
        decreases if more then 1 + dataLen + received else 0
      {
        ghost var data := frame[..dataLen + received];
        ghost var d := Drain(data, cache);
        DrainOnce(data, cache);
        var length, out, contentType, beMore := Decode(received);
        received := 0;
        var reaction := Reaction(length, out, contentType);
        if beMore {
          Regroup(events, reaction, Drain(frame[..dataLen + received], cache).events);
        }
        events := events + reaction;
        more := beMore;
      }
    }

    /** clientRecv with a decoder in place: the bytes are received behind the unread ones. */
    method ClientRecv(chunk: seq<Byte>) returns (events: seq<Event>)
      requires Valid() && chunk != [] && dataLen + |chunk| <= FRAME_LEN
      modifies this, frame
      ensures Valid()
      ensures old(dataLen) + |chunk| >= 2 ==>
        Drained(events, Unread(), cache) == Drain(old(Unread()) + chunk, old(cache))
      ensures old(dataLen) + |chunk| == 1 ==>
        if old(frame[1]) >= 0x80 then Drained(events, Unread(), cache) == Drained([], chunk, old(cache))
        else Drained(events, Unread(), cache) == Drained([Disconnect(NoReason)], [], old(cache))
    {
      hide Drain;
      var at, room := GetBuffer();
      Store(at, chunk);
      events := DoReceivedData(|chunk|);
    }

    /** recv into the buffer. */
    method Store(at: nat, chunk: seq<Byte>)
      requires at + |chunk| <= frame.Length
      modifies frame
      ensures frame[..at + |chunk|] == old(frame[..at]) + chunk
      ensures |chunk| == 1 && at == 0 && frame.Length > 1 ==> frame[0] == chunk[0] && frame[1] == old(frame[1])
    {
      forall i | 0 <= i < |chunk| {
        frame[at + i] := chunk[i];
      }
    }
  }

  /** The connection of one client until it is closed: receive by receive, the events, the unread bytes and the cached
      fragments are those of the receives as a stream. */
  method Serve(chunks: seq<seq<Byte>>) returns (decoder: Decoder, events: seq<Event>)
    requires NoLoneByte(chunks) && Fits(chunks)
    ensures fresh(decoder) && fresh(decoder.frame) && decoder.Valid()
    ensures var r := Receive(chunks);
      events == r.events && (!Closes(events) ==> decoder.Unread() == r.rest && decoder.cache == r.cache)
  {
    hide Drain, Closes;
    decoder := new Decoder();
    events := [];
    var i := 0;
    NotClosed();
    while i < |chunks| && !Closes(events)
      invariant 0 <= i <= |chunks| && decoder.Valid() && fresh(decoder) && fresh(decoder.frame)
      invariant var r := Receive(chunks[..i]);
        events == r.events && (!Closes(events) ==> decoder.Unread() == r.rest && decoder.cache == r.cache)
    {
      assert chunks[..i + 1][..i] == chunks[..i];
      ReceivesStep(chunks, i);
      var more := decoder.ClientRecv(chunks[i]);
      events := events + more;
      i := i + 1;
    }
    ClosedStays(chunks, i);
    assert chunks[..|chunks|] == chunks;
  }

  /** No receive stores more than the room GetBuffer reports. */
  predicate Fits(chunks: seq<seq<Byte>>)
  {
    chunks == []
    || (Fits(chunks[..|chunks| - 1])
        && var before, last := Receive(chunks[..|chunks| - 1]), chunks[|chunks| - 1];
           Closes(before.events) || (last != [] && |before.rest| + |last| <= FRAME_LEN))
  }

  lemma {:induction false} ReceivesStep(chunks: seq<seq<Byte>>, i: nat)
    requires i < |chunks| && NoLoneByte(chunks) && Fits(chunks) && !Closes(Receive(chunks[..i]).events)
    ensures chunks[i] != [] && 2 <= |Receive(chunks[..i]).rest| + |chunks[i]| <= FRAME_LEN
  {
    var front := chunks[..|chunks| - 1];
    if i < |front| {
      assert front[..i] == chunks[..i];
      ReceivesStep(front, i);
    } else {
      assert front == chunks[..i];
    }
  }

  lemma {:induction false} ClosedStays(chunks: seq<seq<Byte>>, i: nat)
    requires i <= |chunks| && (Closes(Receive(chunks[..i]).events) || i == |chunks|)
    ensures Receive(chunks).events == Receive(chunks[..i]).events
  {
    if i == |chunks| {
      assert chunks[..i] == chunks;
    } else {
      assert chunks[..|chunks| - 1][..i] == chunks[..i];
      ClosedStays(chunks[..|chunks| - 1], i);
    }
  }

  /** Decode on one byte, with next standing behind it in the buffer. */
  function LoneByte(first: Byte, next: Byte, cache: seq<Fragment>): (r: Outcome)
  {
    if next >= 0x80 then Outcome(0, [], NotComplete, false, [first], cache)
    else Outcome(-1, [], Unset, false, [], cache)
  }

  lemma {:induction false} LoneReaction(first: Byte, next: Byte, cache: seq<Fragment>)
    ensures var o := LoneByte(first, next, cache);
      && o.cache == cache
      && if next >= 0x80 then Reaction(o.length, o.out, o.kind) == [] && o.rest == [first]
         else Reaction(o.length, o.out, o.kind) == [Disconnect(NoReason)] && o.rest == []
  {
  }

  // ---- facts the loops need ----

  function Weighted(b: seq<Byte>, k: nat): (r: nat)
  {
    BigEndian(b) * Pow(256, k)
  }

  lemma {:induction false} NoBytes(b: seq<Byte>)
    requires b == []
    ensures Weighted(b, 8) == 0
  {
  }

  lemma {:induction false} AllBytes(b: seq<Byte>)
    ensures Weighted(b, 0) == BigEndian(b)
  {
  }

  lemma {:induction false} OneMoreByte(b: seq<Byte>, x: Byte, k: nat)
    ensures Weighted(b + [x], k) == Weighted(b, k + 1) + x as int * Pow(256, k)
  {
    assert (b + [x])[..|b|] == b;
    assert Pow(256, k + 1) == 256 * Pow(256, k);
    Distribute(BigEndian(b), x, Pow(256, k));
  }

  lemma {:induction false} Distribute(a: nat, x: nat, w: nat)
    ensures (a * 256 + x) * w == a * (256 * w) + x * w
  {
  }

  lemma {:induction false} OneMoreFragment(cache: seq<Fragment>, i: nat, kind: ContentType)
    requires i < |cache|
    ensures Payloads(cache[..i + 1]) == Payloads(cache[..i]) + cache[i].payload
    ensures KindOf(cache[..i + 1], kind) == ByOpcode(cache[i].opcode, KindOf(cache[..i], kind))
  {
    assert cache[..i + 1][..i] == cache[..i];
  }

  lemma {:induction false} HeadNotMasked(data: seq<Byte>)
    requires |data| >= 2 && data[1] < 128
    ensures HeadOf(data) == NotMasked
  {
  }

  /** The whole array may be looked at where only its first n bytes count: the head is not complete... */
  lemma {:induction false} HeadPartial(whole: seq<Byte>, n: nat)
    requires 2 <= n <= |whole| && |whole| >= 14 && whole[1] >= 128
    requires PayloadOffset(whole[1] % 128) + PayloadLength(whole) > n
    ensures HeadOf(whole[..n]) == Incomplete
  {
    if whole[1] % 128 == 127 && n >= 10 {
      assert whole[..n][2..10] == whole[2..10];
    }
  }

  /** ... or complete with the same payload. */
  lemma {:induction false} HeadWhole(whole: seq<Byte>, n: nat)
    requires 2 <= n <= |whole| && |whole| >= 14 && whole[1] >= 128
    requires PayloadOffset(whole[1] % 128) + PayloadLength(whole) <= n
    ensures var offset := PayloadOffset(whole[1] % 128);
      var size := offset + PayloadLength(whole);
      HeadOf(whole[..n])
      == Complete(whole[0] >= 128, whole[0] % 16, Masked(whole[offset..size], whole[offset - 4..offset]), size)
  {
    var offset := PayloadOffset(whole[1] % 128);
    if whole[1] % 128 == 127 {
      assert whole[..n][2..10] == whole[2..10];
    }
    var size := offset + PayloadLength(whole);
    LengthPrefix(whole, n);
    SliceSlice(whole, n, offset, size);
    SliceSlice(whole, n, offset - 4, offset);
    hide Masked, PayloadLength;
  }

  lemma {:induction false} LengthPrefix(whole: seq<Byte>, n: nat)
    requires 2 <= n <= |whole| && PayloadOffset(whole[1] % 128) <= n
    ensures PayloadLength(whole[..n]) == PayloadLength(whole)
  {
    if whole[1] % 128 == 127 {
      assert whole[..n][2..10] == whole[2..10];
    }
  }

  lemma {:induction false} SliceSlice(s: seq<Byte>, n: nat, i: nat, j: nat)
    requires i <= j <= n <= |s|
    ensures s[..n][i..j] == s[i..j]
  {
  }
}
