/** However the network cuts a stream, the same messages are delivered; and they are the messages that were sent. */
module WsStream {
  import opened Bytes
  import opened WsFrames

  // ---- receive by receive ----

  /** The connection after the receives: once a step disconnects, nothing more is read. */
  function Receive(chunks: seq<seq<Byte>>): (r: Drained)
  {
    if chunks == [] then Drained([], [], [])
    else
      var before := Receive(chunks[..|chunks| - 1]);
      var data := before.rest + chunks[|chunks| - 1];
      if Closes(before.events) || |data| < 2 then before.(rest := data)
      else After(before.events, Drain(data, before.cache))
  }

  /** Decode is never called with a single byte in the buffer: it would read the mask bit of a byte not yet there. */
  predicate NoLoneByte(chunks: seq<seq<Byte>>)
  {
    chunks == []
    || (NoLoneByte(chunks[..|chunks| - 1])
        && var before := Receive(chunks[..|chunks| - 1]);
           Closes(before.events) || |before.rest + chunks[|chunks| - 1]| >= 2)
  }

  /** Every frame that begins in the stream has its mask bit set. */
  predicate AllMasked(data: seq<Byte>)
    decreases |data|
  {
    |data| < 2
    || match HeadOf(data)
       case NotMasked => false
       case Incomplete => true
       case Complete(_, _, _, size) => AllMasked(data[size..])
  }

  /** The frame at the head of a is treated the same when more bytes follow. */
  lemma {:induction false} DecodeExtends(a: seq<Byte>, b: seq<Byte>, cache: seq<Fragment>)
    requires |a| >= 2 && HeadOf(a).Complete?
    ensures var o, o' := DecodeOf(a, cache), DecodeOf(a + b, cache);
      && o'.length == o.length && o'.out == o.out && o'.kind == o.kind && o'.cache == o.cache && o'.rest == o.rest + b
      && if Closes(Reaction(o.length, o.out, o.kind)) then !o.more && !o'.more
         else o.more == (|o.rest| > 5) && o'.more == (|o'.rest| > 5)
  {
    HeadExtends(a, b);
    assert (a + b)[HeadOf(a).size..] == a[HeadOf(a).size..] + b;
    hide HeadOf;
  }

  lemma {:induction false} MaskedExtends(a: seq<Byte>, b: seq<Byte>)
    requires |a| >= 2 && AllMasked(a + b)
    ensures !HeadOf(a).NotMasked?
    ensures HeadOf(a).Complete? ==> AllMasked(a[HeadOf(a).size..] + b)
  {
    if HeadOf(a).Complete? {
      HeadExtends(a, b);
      assert (a + b)[HeadOf(a).size..] == a[HeadOf(a).size..] + b;
    }
  }

  /** Five bytes hold no frame. */
  lemma {:induction false} TooShort(data: seq<Byte>, cache: seq<Fragment>)
    requires 2 <= |data| <= 5 && AllMasked(data)
    ensures Drain(data, cache) == Drained([], data, cache)
  {
  }

  lemma {:induction false} NothingYet(data: seq<Byte>, cache: seq<Fragment>)
    requires |data| >= 2 && HeadOf(data).Incomplete?
    ensures Drain(data, cache) == Drained([], data, cache)
  {
  }

  lemma {:induction false} DrainOnce(data: seq<Byte>, cache: seq<Fragment>)
    requires |data| >= 2
    ensures var o := DecodeOf(data, cache);
      var events := Reaction(o.length, o.out, o.kind);
      Drain(data, cache) == if o.more then After(events, Drain(o.rest, o.cache)) else Drained(events, o.rest, o.cache)
  {
  }

  lemma {:induction false} ClosesLater(first: seq<Event>, next: seq<Event>)
    requires !Closes(first)
    ensures Closes(first + next) <==> Closes(next)
  {
    if next == [] {
      assert first + next == first;
    }
  }

  /** Draining a prefix first and then what is left of it with the remainder is draining the whole. */
  lemma {:induction false} DrainSplit(a: seq<Byte>, b: seq<Byte>, cache: seq<Fragment>)
    requires |a| >= 2 && AllMasked(a + b)
    requires var d := Drain(a, cache); Closes(d.events) || |d.rest + b| >= 2
    ensures var d := Drain(a, cache);
      if Closes(d.events) then Drain(a + b, cache).events == d.events
      else AllMasked(d.rest + b) && Drain(a + b, cache) == After(d.events, Drain(d.rest + b, d.cache))
    decreases |a|
  {
    hide HeadOf, AllMasked, DecodeOf, Reaction, Closes, Drain;
    MaskedExtends(a, b);
    DrainOnce(a, cache);
    if HeadOf(a).Complete? {
      DecodeExtends(a, b, cache);
      DrainOnce(a + b, cache);
      RestOf(a, cache);
      var o := DecodeOf(a, cache);
      var events := Reaction(o.length, o.out, o.kind);
      if Closes(events) {
      } else if o.more {
        var d := Drain(o.rest, o.cache);
        ClosesLater(events, d.events);
        DrainSplit(o.rest, b, o.cache);
        if !Closes(d.events) {
          Regroup(events, d.events, Drain(d.rest + b, d.cache).events);
        }
      } else if |o.rest + b| <= 5 {
        TooShort(o.rest + b, o.cache);
        assert events + [] == events;
      }
    } else {
      NothingYet(a, cache);
      assert After([], Drain(a + b, cache)) == Drain(a + b, cache);
      NotClosed();
    }
  }

  lemma {:induction false} RestOf(a: seq<Byte>, cache: seq<Fragment>)
    requires |a| >= 2 && HeadOf(a).Complete?
    ensures DecodeOf(a, cache).rest == a[HeadOf(a).size..]
  {
  }

  lemma {:induction false} NotClosed()
    ensures !Closes([])
  {
  }

  lemma {:induction false} Regroup(a: seq<Event>, b: seq<Event>, c: seq<Event>)
    ensures a + b + c == a + (b + c)
  {
  }

  /** A prefix of a masked stream is one. */
  lemma {:induction false} MaskedPrefix(a: seq<Byte>, b: seq<Byte>)
    requires AllMasked(a + b)
    ensures AllMasked(a)
    decreases |a|
  {
    if |a| >= 2 {
      MaskedExtends(a, b);
      if HeadOf(a).Complete? {
        MaskedPrefix(a[HeadOf(a).size..], b);
      }
    }
  }

  /** For every masked stream and every way to cut it into receives none of which leaves a lone byte to decode: the
      events are those of the whole stream received at once, and while the connection is open the buffer holds exactly
      what the whole stream leaves unread and the same fragments are cached. */
  lemma {:induction false} ChunkIndependent(chunks: seq<seq<Byte>>)
    requires NoLoneByte(chunks) && chunks != [] && AllMasked(Concat(chunks))
    ensures |Concat(chunks)| >= 2
    ensures var r, d := Receive(chunks), Drain(Concat(chunks), []);
      r.events == d.events && (!Closes(d.events) ==> r == d)
  {
    hide Drain, AllMasked, Closes;
    var front, last := chunks[..|chunks| - 1], chunks[|chunks| - 1];
    if front == [] {
      FirstReceive(chunks);
    } else {
      MaskedPrefix(Concat(front), last);
      ChunkIndependent(front);
      DrainSplit(Concat(front), last, []);
    }
  }

  lemma {:induction false} FirstReceive(chunks: seq<seq<Byte>>)
    requires |chunks| == 1 && NoLoneByte(chunks)
    ensures |chunks[0]| >= 2 && Concat(chunks) == chunks[0] && Receive(chunks) == Drain(chunks[0], [])
  {
    var last := chunks[0];
    NotClosed();
    assert chunks[..0] == [];
    assert Receive(chunks[..0]) == Drained([], [], []);
    hide Drain;
    assert [] + last == last;
    assert |last| >= 2 ==> After([], Drain(last, [])) == Drain(last, []);
  }
}
