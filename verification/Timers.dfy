/** The two indexes over the same timers: OPPTimerMonitor.cpp and AppTimer.cpp. */
module Timers {
  import opened Arith
  import opened Options

  // ---- time ----

  datatype Timeval = Timeval(sec: int, usec: int)

  const SECOND: int := 1_000_000

  function Micros(t: Timeval): (r: int)
  {
    t.sec * SECOND + t.usec
  }

  /** What gettimeofday returns. */
  predicate Normal(t: Timeval)
  {
    0 <= t.usec < SECOND
  }

  /** timeval_sort. */
  predicate Less(a: Timeval, b: Timeval)
  {
    a.sec < b.sec || (a.sec == b.sec && a.usec < b.usec)
  }

  /** Division and remainder of C, towards zero. */
  function Quotient(a: int, b: int): (r: int)
    requires b > 0
  {
    if a < 0 then -(-a / b) else a / b
  }

  function Remainder(a: int, b: int): (r: int)
    requires b > 0
  {
    a - Quotient(a, b) * b
  }

  /** The quotient is the one of the absolute values, with the sign of the dividend. */
  lemma {:induction false} TowardsZero(n: int, b: int, q: int)
    requires b > 0 && n >= 0 && q >= 0 && q * b <= n < q * b + b
    ensures Quotient(n, b) == q && Quotient(-n, b) == -q
  {
    QuotientIs(n, b, q, n / b, n % b);
  }

  lemma {:induction false} QuotientIs(n: nat, b: nat, q: nat, x: nat, r: nat)
    requires q * b <= n < q * b + b && n == x * b + r && r < b
    ensures x == q
  {
    if x < q {
      LessTimes(x, q, b);
    } else if x > q {
      LessTimes(q, x, b);
    }
  }

  lemma {:induction false} LessTimes(x: nat, y: nat, b: nat)
    requires x < y
    ensures x * b + b <= y * b
  {
    MulLe(x + 1, y, b);
  }

  /** The key AddTimer stores: a carry out of the microseconds is added to the seconds and left in place too. */
  function KeyFor(now: Timeval, msec: int): (r: Timeval)
  {
    var usec := now.usec + Remainder(msec, 1000) * 1000;
    Timeval(now.sec + Quotient(msec, 1000) + Quotient(usec, SECOND), usec)
  }

  /** When the timer was asked for. */
  function Due(now: Timeval, msec: int): (r: int)
  {
    Micros(now) + msec * 1000
  }

  /** The instants at which a stored key counts as expired, exactly: past the due time when the microseconds asked for
      stay in range, and from the next full second after it when they carry or fall below zero. */
  lemma {:induction false} ExpiresExactly(start: Timeval, msec: int, now: Timeval)
    requires Normal(start) && Normal(now)
    ensures var due, usec := Due(start, msec), start.usec + Remainder(msec, 1000) * 1000;
      Less(KeyFor(start, msec), now)
      <==> if 0 <= usec < 1_000_000 then Micros(now) > due else now.sec >= due / 1_000_000 + 1
  {
    KeyIsDue(start, msec);
    KeyRange(start, msec);
    SplitSecond(Due(start, msec), KeyFor(start, msec));
  }

  /** The key is the due time, or one second later when the microseconds carried. */
  lemma {:induction false} KeyIsDue(start: Timeval, msec: int)
    requires Normal(start)
    ensures var key, due := KeyFor(start, msec), Due(start, msec);
      Micros(key) == due + if key.usec >= SECOND then SECOND else 0
  {
    var q, r := Quotient(msec, 1000), Remainder(msec, 1000);
    assert msec == q * 1000 + r;
    assert -1000 < r < 1000;
  }

  lemma {:induction false} KeyRange(start: Timeval, msec: int)
    requires Normal(start)
    ensures -SECOND < KeyFor(start, msec).usec < 2 * SECOND
  {
    assert -1000 < Remainder(msec, 1000) < 1000;
  }

  lemma {:induction false} SplitSecond(due: int, key: Timeval)
    requires -SECOND < key.usec < 2 * SECOND
    requires Micros(key) == due + if key.usec >= SECOND then SECOND else 0
    ensures key.usec < 0 ==> due / SECOND == key.sec - 1
    ensures key.usec >= 0 ==> due / SECOND == key.sec
  {
  }

  /** Never early, and at most one second late. */
  lemma {:induction false} NeverEarly(start: Timeval, msec: int, now: Timeval)
    requires Normal(start) && Normal(now)
    ensures Less(KeyFor(start, msec), now) ==> Micros(now) > Due(start, msec)
    ensures Micros(now) >= Due(start, msec) + SECOND ==> Less(KeyFor(start, msec), now)
    ensures Micros(now) == now.sec * 1_000_000 + now.usec
    ensures Due(start, msec) == start.sec * 1_000_000 + start.usec + msec * 1000
  {
    ExpiresExactly(start, msec, now);
    KeyRange(start, msec);
    KeyIsDue(start, msec);
  }

  // ---- the multimap of pending timers ----

  datatype Timer = Timer(inter: int, flag: int, para: int)

  datatype Entry = Entry(key: Timeval, timer: Timer)

  predicate Sorted(s: seq<Entry>)
  {
    forall i, j | 0 <= i < j < |s| :: !Less(s[j].key, s[i].key)
  }

  /** multimap::insert: behind the entries whose key is not greater. */
  function Inserted(s: seq<Entry>, e: Entry): (r: seq<Entry>)
  {
    if s == [] then [e]
    else if Less(e.key, s[0].key) then [e] + s
    else [s[0]] + Inserted(s[1..], e)
  }

  /** The entries CancelTimer erases. */
  predicate Matches(e: Entry, key: Timeval, flag: int, inter: int)
  {
    e.key == key && e.timer.flag == flag && e.timer.inter == inter
  }

  function Without(s: seq<Entry>, key: Timeval, flag: int, inter: int): (r: seq<Entry>)
  {
    if s == [] then []
    else
      var rest := Without(s[..|s| - 1], key, flag, inter);
      if Matches(s[|s| - 1], key, flag, inter) then rest else rest + [s[|s| - 1]]
  }

  lemma {:induction false} InsertedHolds(s: seq<Entry>, e: Entry)
    ensures multiset(Inserted(s, e)) == multiset(s) + multiset{e}
    decreases |s|
  {
    if s != [] {
      InsertedHolds(s[1..], e);
      assert s == [s[0]] + s[1..];
    }
  }

  /** The new entry comes behind all whose key is not greater, and the others stay as they are. */
  lemma {:induction false} InsertedBehindEqual(s: seq<Entry>, e: Entry) returns (i: nat)
    requires Sorted(s)
    ensures i <= |s| && Inserted(s, e) == s[..i] + [e] + s[i..]
    ensures forall k | 0 <= k < i :: s[k].key == e.key || Less(s[k].key, e.key)
    ensures forall k | i <= k < |s| :: Less(e.key, s[k].key)
    decreases |s|
  {
    if s == [] || Less(e.key, s[0].key) {
      i := 0;
      assert forall k | 0 < k < |s| :: !Less(s[k].key, s[0].key);
    } else {
      i := InsertedBehindEqual(s[1..], e);
      assert forall k | 0 < k < |s| :: s[k] == s[1..][k - 1];
      i := i + 1;
    }
  }

  lemma {:induction false} InsertedSorted(s: seq<Entry>, e: Entry)
    requires Sorted(s)
    ensures Sorted(Inserted(s, e))
    decreases |s|
  {
    if s != [] && !Less(e.key, s[0].key) {
      InsertedSorted(s[1..], e);
      InsertedHolds(s[1..], e);
      var r := Inserted(s[1..], e);
      forall j | 0 <= j < |r|
        ensures !Less(r[j].key, s[0].key)
      {
        assert r[j] in multiset(r);
      }
    }
  }

  lemma {:induction false} WithoutCounts(s: seq<Entry>, key: Timeval, flag: int, inter: int, e: Entry)
    ensures multiset(Without(s, key, flag, inter))[e] == if Matches(e, key, flag, inter) then 0 else multiset(s)[e]
  {
    if s != [] {
      WithoutCounts(s[..|s| - 1], key, flag, inter, e);
      assert s == s[..|s| - 1] + [s[|s| - 1]];
    }
  }

  lemma {:induction false} WithoutHolds(s: seq<Entry>, key: Timeval, flag: int, inter: int)
    ensures var r := Without(s, key, flag, inter);
      && (forall e :: multiset(r)[e]
            == if e.key == key && e.timer.flag == flag && e.timer.inter == inter then 0 else multiset(s)[e])
      && (forall e :: e in r <==>
            e in s && !(e.key == key && e.timer.flag == flag && e.timer.inter == inter))
  {
    hide Without;
    var r := Without(s, key, flag, inter);
    forall e: Entry
      ensures multiset(r)[e]
        == if e.key == key && e.timer.flag == flag && e.timer.inter == inter then 0 else multiset(s)[e]
      ensures e in r <==> e in s && !(e.key == key && e.timer.flag == flag && e.timer.inter == inter)
    {
      WithoutCounts(s, key, flag, inter, e);
      assert e in r <==> multiset(r)[e] > 0;
      assert e in s <==> multiset(s)[e] > 0;
    }
  }

  lemma {:induction false} WithoutSorted(s: seq<Entry>, key: Timeval, flag: int, inter: int)
    requires Sorted(s)
    ensures Sorted(Without(s, key, flag, inter))
  {
    if s != [] {
      var front, last := s[..|s| - 1], s[|s| - 1];
      WithoutSorted(front, key, flag, inter);
      var r := Without(front, key, flag, inter);
      forall i | 0 <= i < |r|
        ensures !Less(last.key, r[i].key)
      {
        WithoutHolds(front, key, flag, inter);
        assert r[i] in front;
      }
    }
  }

  lemma {:induction false} WithoutAppend(a: seq<Entry>, b: seq<Entry>, key: Timeval, flag: int, inter: int)
    ensures Without(a + b, key, flag, inter) == Without(a, key, flag, inter) + Without(b, key, flag, inter)
  {
    if b == [] {
      assert a + b == a;
    } else {
      WithoutAppend(a, b[..|b| - 1], key, flag, inter);
      assert (a + b)[..|a + b| - 1] == a + b[..|b| - 1];
    }
  }

  lemma {:induction false} WithoutNone(s: seq<Entry>, key: Timeval, flag: int, inter: int)
    requires forall e | e in s :: !Matches(e, key, flag, inter)
    ensures Without(s, key, flag, inter) == s
  {
    if s != [] {
      WithoutNone(s[..|s| - 1], key, flag, inter);
    }
  }

  // ---- the second index ----

  datatype Slot = Slot(para: int, flag: int)

  function SlotOf(t: Timer): (r: Slot)
  {
    Slot(t.para, t.flag)
  }

  /** The entry of interface inter for a slot and its key. */
  function EntryOf(slot: Slot, key: Timeval, inter: int): (r: Entry)
  {
    Entry(key, Timer(inter, slot.flag, slot.para))
  }

  /** Both indexes hold the same timers, each once, all of one interface. */
  ghost predicate Agree(timers: seq<Entry>, paras: map<Slot, Timeval>, inter: int)
  {
    forall e: Entry :: multiset(timers)[e] == Expected(paras, inter, e)
  }

  /** How often the second index says an entry is pending. */
  function Expected(paras: map<Slot, Timeval>, inter: int, e: Entry): (r: nat)
  {
    var slot := SlotOf(e.timer);
    if slot in paras && e == EntryOf(slot, paras[slot], inter) then 1 else 0
  }

  /** Another slot's timer has the same key and flag. */
  predicate Shared(paras: map<Slot, Timeval>, slot: Slot, key: Timeval)
  {
    exists other :: other in paras && other != slot && other.flag == slot.flag && paras[other] == key
  }

  /** StartTimer: the timer is added, and taken away again when its slot is taken. */
  function TimersAfterStart(timers: seq<Entry>, paras: map<Slot, Timeval>, slot: Slot, key: Timeval, inter: int)
    : (r: seq<Entry>)
  {
    var added := Inserted(timers, EntryOf(slot, key, inter));
    if slot in paras then Without(added, key, slot.flag, inter) else added
  }

  function ParasAfterStart(paras: map<Slot, Timeval>, slot: Slot, key: Timeval): (r: map<Slot, Timeval>)
  {
    if slot in paras then paras else paras[slot := key]
  }

  /** Starting a timer in a free slot keeps the indexes in agreement; in a taken slot exactly when no pending timer has
      the new one's key and flag. */
  lemma {:induction false} StartKeeps(timers: seq<Entry>, paras: map<Slot, Timeval>, inter: int, slot: Slot,
      key: Timeval)
    requires Agree(timers, paras, inter)
    ensures Agree(TimersAfterStart(timers, paras, slot, key, inter), ParasAfterStart(paras, slot, key), inter)
      <==> (slot in paras ==> paras[slot] != key && !Shared(paras, slot, key))
  {
    var e := EntryOf(slot, key, inter);
    var added := Inserted(timers, e);
    InsertedHolds(timers, e);
    if slot in paras {
      WithoutHolds(added, key, slot.flag, inter);
      var after := Without(added, key, slot.flag, inter);
      if paras[slot] == key {
        assert multiset(after)[e] == 0;
      } else if other :| other in paras && other != slot && other.flag == slot.flag && paras[other] == key {
        assert multiset(after)[EntryOf(other, key, inter)] == 0;
      } else {
        forall x: Entry
          ensures multiset(after)[x] == Expected(paras, inter, x)
        {
          assert multiset(added)[x] == multiset(timers)[x] + if x == e then 1 else 0;
        }
      }
    }
  }

  /** StopTimer on a taken slot keeps the indexes in agreement exactly when no other pending timer shares key and flag;
      on a free slot nothing happens. */
  lemma {:induction false} StopKeeps(timers: seq<Entry>, paras: map<Slot, Timeval>, inter: int, slot: Slot)
    requires Agree(timers, paras, inter) && slot in paras
    ensures Agree(Without(timers, paras[slot], slot.flag, inter), paras - {slot}, inter)
      <==> !Shared(paras, slot, paras[slot])
  {
    var key := paras[slot];
    WithoutHolds(timers, key, slot.flag, inter);
    var after := Without(timers, key, slot.flag, inter);
    if other :| other in paras && other != slot && other.flag == slot.flag && paras[other] == key {
      assert other in paras - {slot};
      assert multiset(after)[EntryOf(other, key, inter)] == 0;
    } else {
      forall x: Entry
        ensures multiset(after)[x] == Expected(paras - {slot}, inter, x)
      {
        assert Matches(x, key, slot.flag, inter) && SlotOf(x.timer) in paras && paras[SlotOf(x.timer)] == key
          ==> SlotOf(x.timer) == slot;
      }
    }
  }

  /** A stopped slot has no pending timer left: it cannot fire. */
  lemma {:induction false} StoppedIsGone(timers: seq<Entry>, paras: map<Slot, Timeval>, inter: int, slot: Slot)
    requires Agree(timers, paras, inter) && slot in paras
    ensures forall e | e in Without(timers, paras[slot], slot.flag, inter) :: SlotOf(e.timer) != slot
  {
    WithoutHolds(timers, paras[slot], slot.flag, inter);
    forall e | e in timers && SlotOf(e.timer) == slot
      ensures Matches(e, paras[slot], slot.flag, inter)
    {
      assert multiset(timers)[e] > 0;
    }
  }

  /** CheckExpires takes the first timer out of both indexes. */
  lemma {:induction false} FireKeeps(timers: seq<Entry>, paras: map<Slot, Timeval>, inter: int)
    requires Agree(timers, paras, inter) && timers != []
    ensures var slot := SlotOf(timers[0].timer);
      && slot in paras && timers[0] == EntryOf(slot, paras[slot], inter)
      && Agree(timers[1..], paras - {slot}, inter)
      && forall e | e in timers[1..] :: SlotOf(e.timer) != slot
  {
    var first := timers[0];
    var slot := SlotOf(first.timer);
    assert timers == [first] + timers[1..];
    assert multiset(timers)[first] > 0;
    forall e | e in timers[1..]
      ensures SlotOf(e.timer) != slot
    {
      assert multiset(timers[1..])[e] > 0;
      assert multiset(timers)[e] > 0;
    }
    forall x: Entry
      ensures multiset(timers[1..])[x] == Expected(paras - {slot}, inter, x)
    {
      assert multiset(timers)[x] == multiset(timers[1..])[x] + if x == first then 1 else 0;
    }
  }

  // ---- the objects ----

  class AppTimer {
    var timerMap: seq<Entry>
    var paraMap: map<Slot, Timeval>

    ghost predicate Valid()
      reads this
    {
      Sorted(timerMap)
    }

    constructor ()
      ensures Valid() && timerMap == [] && paraMap == map[]
    {
      timerMap := [];
      paraMap := map[];
    }

    /** OPPTimerMonitor::AddTimer at the time now. */
    method AddTimer(now: Timeval, msec: int, timer: Timer) returns (tv: Timeval)
      requires Valid()
      modifies `timerMap
      ensures Valid() && tv == KeyFor(now, msec) && timerMap == Inserted(old(timerMap), Entry(tv, timer))
    {
      tv := now;
      tv := tv.(sec := tv.sec + Quotient(msec, 1000));
      tv := tv.(usec := tv.usec + Remainder(msec, 1000) * 1000);
      tv := tv.(sec := tv.sec + Quotient(tv.usec, SECOND));
      InsertedSorted(timerMap, Entry(tv, timer));
      timerMap := Inserted(timerMap, Entry(tv, timer));
    }

    /** Where the entries with this key begin. */
    method LowerBound(key: Timeval) returns (i: nat)
      requires Valid()
      ensures i <= |timerMap| && (forall e | e in timerMap[..i] :: Less(e.key, key))
      ensures forall j | i <= j < |timerMap| :: !Less(timerMap[j].key, key)
    {
      i := 0;
      while i < |timerMap| && Less(timerMap[i].key, key)
        invariant 0 <= i <= |timerMap| && forall j | 0 <= j < i :: Less(timerMap[j].key, key)
      {
        i := i + 1;
      }
    }

    /** OPPTimerMonitor::CancelTimer: in the range of entries with an equal key, the matching ones are erased; the
        caller's time is marked when there was one. */
    method CancelTimer(key: Timeval, flag: int, inter: int) returns (tv: Timeval)
      requires Valid()
      modifies `timerMap
      ensures Valid() && timerMap == Without(old(timerMap), key, flag, inter)
      ensures tv == if |timerMap| == |old(timerMap)| then key else key.(sec := -1)
    {
      hide Without, Sorted;
      tv := key;
      ghost var s := timerMap;
      var i := LowerBound(key);
      ghost var k := i;
      WithoutNone(s[..k], key, flag, inter);
      hide Less;
      while i < |timerMap| && !Less(key, timerMap[i].key)
        invariant 0 <= i <= |timerMap| && i <= k <= |s| && timerMap[i..] == s[k..]
        invariant timerMap[..i] == Without(s[..k], key, flag, inter)
        invariant forall j | k <= j < |s| :: !Less(s[j].key, key)
        invariant if i == k then tv == key else i < k && tv == key.(sec := -1)
        decreases |s| - k
      {
        assert timerMap[i] == timerMap[i..][0] == s[k];
        InRange(s[k].key, key);
        WithoutNext(s, k, key, flag, inter);
        ghost var before := timerMap[..i];
        if timerMap[i].timer.flag == flag && timerMap[i].timer.inter == inter {
          timerMap := timerMap[..i] + timerMap[i + 1..];
          tv := tv.(sec := -1);
          assert timerMap[..i] == before;
        } else {
          i := i + 1;
          assert timerMap[..i] == before + [s[k]];
        }
        k := k + 1;
      }
      assert k < |s| ==> timerMap[i] == timerMap[i..][0] == s[k];
      BehindRange(s, k, key, flag, inter);
      WithoutAppend(s[..k], s[k..], key, flag, inter);
      assert s[..k] + s[k..] == s;
      assert timerMap[..i] + timerMap[i..] == timerMap;
      WithoutSorted(s, key, flag, inter);
    }

    /** OPPTimerMonitor::CheckExpires with AppTimer::OnNotify: at most one timer fires, the first in key order. */
    method CheckExpires(now: Timeval) returns (fired: Option<Timer>)
      requires Valid()
      modifies this
      ensures Valid()
      ensures if old(timerMap) != [] && Less(old(timerMap)[0].key, now) then
                && fired == Some(old(timerMap)[0].timer) && timerMap == old(timerMap)[1..]
                && paraMap == old(paraMap) - {SlotOf(old(timerMap)[0].timer)}
              else fired == None && timerMap == old(timerMap) && paraMap == old(paraMap)
      ensures fired == None ==> forall e | e in timerMap :: !Less(e.key, now)
    {
      if timerMap != [] && Less(timerMap[0].key, now) {
        var timer := timerMap[0].timer;
        timerMap := timerMap[1..];
        paraMap := paraMap - {SlotOf(timer)};
        return Some(timer);
      }
      return None;
    }

    /** AppTimer::StartTimer: 0, or -1 when the slot already has a timer. */
    method StartTimer(now: Timeval, msec: int, inter: int, flag: int, para: int) returns (r: int)
      requires Valid()
      modifies this
      ensures Valid()
      ensures var slot, key := Slot(para, flag), KeyFor(now, msec);
        && timerMap == TimersAfterStart(old(timerMap), old(paraMap), slot, key, inter)
        && paraMap == ParasAfterStart(old(paraMap), slot, key)
        && r == if slot in old(paraMap) then -1 else 0
    {
      var slot := Slot(para, flag);
      var tv := AddTimer(now, msec, Timer(inter, flag, para));
      if slot in paraMap {
        tv := CancelTimer(tv, flag, inter);
        return -1;
      }
      paraMap := paraMap[slot := tv];
      return 0;
    }

    /** AppTimer::StopTimer. */
    method StopTimer(inter: int, flag: int, para: int)
      requires Valid()
      modifies this
      ensures Valid()
      ensures var slot := Slot(para, flag);
        if slot in old(paraMap) then
          && timerMap == Without(old(timerMap), old(paraMap)[slot], flag, inter)
          && paraMap == old(paraMap) - {slot}
        else timerMap == old(timerMap) && paraMap == old(paraMap)
    {
      var slot := Slot(para, flag);
      if slot in paraMap {
        var tv := CancelTimer(paraMap[slot], flag, inter);
        paraMap := paraMap[slot := tv];
        paraMap := paraMap - {slot};
      }
    }
  }

  lemma {:induction false} InRange(a: Timeval, key: Timeval)
    requires !Less(key, a) && !Less(a, key)
    ensures a == key
  {
  }

  lemma {:induction false} WithoutNext(s: seq<Entry>, k: nat, key: Timeval, flag: int, inter: int)
    requires k < |s|
    ensures Without(s[..k + 1], key, flag, inter)
      == Without(s[..k], key, flag, inter) + if Matches(s[k], key, flag, inter) then [] else [s[k]]
  {
    assert s[..k + 1][..k] == s[..k];
  }

  lemma {:induction false} BehindRange(s: seq<Entry>, k: nat, key: Timeval, flag: int, inter: int)
    requires Sorted(s) && k <= |s| && (k < |s| ==> Less(key, s[k].key))
    ensures Without(s[k..], key, flag, inter) == s[k..]
  {
    forall e | e in s[k..]
      ensures !Matches(e, key, flag, inter)
    {
      var j :| 0 <= j < |s[k..]| && s[k..][j] == e;
      assert s[k + j] == e;
    }
    WithoutNone(s[k..], key, flag, inter);
  }

  // ---- runs ----

  /** What a program does with its timers, and the clock. */
  datatype Op = Start(now: Timeval, msec: int, slot: Slot) | Stop(slot: Slot) | Check(now: Timeval)

  /** A successful start, numbered by the operation that made it. */
  datatype Started = Started(id: nat, slot: Slot, now: Timeval, msec: int)

  datatype Fire = Fire(started: Started, at: Timeval)

  /** The two indexes, and what has happened: the start behind each pending slot, the fired and the stopped starts, and
      the timers whose owners were notified. */
  datatype State = State(
    timers: seq<Entry>,
    paras: map<Slot, Timeval>,
    live: map<Slot, Started>,
    fired: seq<Fire>,
    stopped: set<nat>,
    notified: seq<Timer>)

  const EMPTY: State := State([], map[], map[], [], {}, [])

  /** The state after an operation of interface inter. */
  function Apply(s: State, op: Op, id: nat, inter: int): (r: State)
  {
    match op
    case Start(now, msec, slot) =>
      s.(timers := TimersAfterStart(s.timers, s.paras, slot, KeyFor(now, msec), inter),
         paras := ParasAfterStart(s.paras, slot, KeyFor(now, msec)),
         live := if slot in s.paras then s.live else s.live[slot := Started(id, slot, now, msec)])
    case Stop(slot) =>
      if slot in s.paras then
        s.(timers := Without(s.timers, s.paras[slot], slot.flag, inter),
           paras := s.paras - {slot},
           live := s.live - {slot},
           stopped := s.stopped + if slot in s.live then {s.live[slot].id} else {})
      else s
    case Check(now) =>
      if s.timers != [] && Less(s.timers[0].key, now) then
        var slot := SlotOf(s.timers[0].timer);
        s.(timers := s.timers[1..],
           paras := s.paras - {slot},
           live := s.live - {slot},
           fired := s.fired + if slot in s.live then [Fire(s.live[slot], now)] else [],
           notified := s.notified + [s.timers[0].timer])
      else s
  }

  function Run(ops: seq<Op>, inter: int): (r: State)
  {
    if ops == [] then EMPTY else Apply(Run(ops[..|ops| - 1], inter), ops[|ops| - 1], |ops| - 1, inter)
  }

  /** No operation of the run meets another pending timer with the same key and flag. */
  ghost predicate Unshared(ops: seq<Op>, inter: int)
  {
    ops != [] ==>
      && Unshared(ops[..|ops| - 1], inter)
      && var s := Run(ops[..|ops| - 1], inter);
         match ops[|ops| - 1]
         case Start(now, msec, slot) =>
           && Normal(now)
           && (slot in s.paras ==> s.paras[slot] != KeyFor(now, msec) && !Shared(s.paras, slot, KeyFor(now, msec)))
         case Stop(slot) => slot in s.paras ==> !Shared(s.paras, slot, s.paras[slot])
         case Check(now) => Normal(now)
  }

  /** Each pending slot is backed by the start it came from. */
  ghost predicate Backed(s: State)
  {
    s.live.Keys == s.paras.Keys
    && forall slot | slot in s.live ::
      && s.live[slot].slot == slot && Normal(s.live[slot].now)
      && s.paras[slot] == KeyFor(s.live[slot].now, s.live[slot].msec)
  }

  /** Each notification is of the slot of the start that fired. */
  ghost predicate Notifies(s: State)
  {
    |s.notified| == |s.fired| && forall i | 0 <= i < |s.fired| :: SlotOf(s.notified[i]) == s.fired[i].started.slot
  }

  /** Every start is pending once, fired once, or stopped, never two of these. */
  ghost predicate OnceOnly(s: State, n: nat)
  {
    && LiveOnce(s.live, n) && FiredOnce(s.fired, n) && Apart(s.live, s.fired, s.stopped)
    && forall id | id in s.stopped :: id < n
  }

  ghost predicate LiveOnce(live: map<Slot, Started>, n: nat)
  {
    && (forall a, b | a in live && b in live && live[a].id == live[b].id :: a == b)
    && (forall slot | slot in live :: live[slot].id < n)
  }

  ghost predicate FiredOnce(fired: seq<Fire>, n: nat)
  {
    && (forall i, j | 0 <= i < j < |fired| :: fired[i].started.id != fired[j].started.id)
    && (forall i | 0 <= i < |fired| :: fired[i].started.id < n)
  }

  ghost predicate Apart(live: map<Slot, Started>, fired: seq<Fire>, stopped: set<nat>)
  {
    && (forall slot | slot in live :: live[slot].id !in stopped)
    && (forall i | 0 <= i < |fired| :: fired[i].started.id !in stopped)
    && (forall slot, i | slot in live && 0 <= i < |fired| :: live[slot].id != fired[i].started.id)
  }

  /** No timer fired at or before the time it was asked for. */
  ghost predicate OnTime(s: State)
  {
    forall i | 0 <= i < |s.fired| :: Micros(s.fired[i].at) > Due(s.fired[i].started.now, s.fired[i].started.msec)
  }

  lemma {:induction false} AgreeEmpty(inter: int)
    ensures Agree([], map[], inter)
  {
  }

  ghost predicate Sound(s: State, n: nat, inter: int)
  {
    Agree(s.timers, s.paras, inter) && Backed(s) && OnceOnly(s, n) && OnTime(s) && Notifies(s)
  }

  /** What happens to the history when a start succeeds. */
  lemma {:induction false} StartHistory(s: State, s': State, n: nat, slot: Slot, started: Started)
    requires OnceOnly(s, n) && slot !in s.live && started.id == n
    requires s'.fired == s.fired && s'.stopped == s.stopped && s'.live == s.live[slot := started]
    ensures OnceOnly(s', n + 1)
  {
    assert LiveOnce(s'.live, n + 1) by {
      hide FiredOnce, Apart;
    }
    assert Apart(s'.live, s'.fired, s'.stopped) by {
      hide LiveOnce;
    }
    hide LiveOnce, Apart;
  }

  /** And when a pending timer goes: it is stopped, or it fires. */
  lemma {:induction false} StopHistory(s: State, s': State, n: nat, slot: Slot)
    requires OnceOnly(s, n) && slot in s.live
    requires s'.fired == s.fired && s'.stopped == s.stopped + {s.live[slot].id} && s'.live == s.live - {slot}
    ensures OnceOnly(s', n + 1)
  {
    assert LiveOnce(s'.live, n + 1) by {
      hide FiredOnce, Apart;
    }
    hide FiredOnce;
    FiredLater(s.fired, n);
  }

  lemma {:induction false} FiredLater(fired: seq<Fire>, n: nat)
    requires FiredOnce(fired, n)
    ensures FiredOnce(fired, n + 1)
  {
  }

  lemma {:induction false} FireHistory(s: State, s': State, n: nat, slot: Slot, at: Timeval)
    requires OnceOnly(s, n) && slot in s.live
    requires s'.fired == s.fired + [Fire(s.live[slot], at)] && s'.stopped == s.stopped && s'.live == s.live - {slot}
    ensures OnceOnly(s', n + 1)
  {
    assert LiveOnce(s'.live, n + 1) by {
      hide FiredOnce, Apart;
    }
    assert FiredOnce(s'.fired, n + 1) by {
      assert forall i | 0 <= i < |s.fired| :: s.fired[i].started.id != s.live[slot].id;
      hide LiveOnce, Apart;
    }
    hide FiredOnce;
  }

  lemma {:induction false} StepStart(s: State, n: nat, inter: int, now: Timeval, msec: int, slot: Slot)
    requires Sound(s, n, inter) && Normal(now)
    requires slot in s.paras ==> s.paras[slot] != KeyFor(now, msec) && !Shared(s.paras, slot, KeyFor(now, msec))
    ensures Sound(Apply(s, Start(now, msec, slot), n, inter), n + 1, inter)
  {
    hide Agree, Shared, KeyFor, Due, TimersAfterStart, OnceOnly;
    StartKeeps(s.timers, s.paras, inter, slot, KeyFor(now, msec));
    SlotsBacked(s, slot);
    if slot !in s.paras {
      StartHistory(s, Apply(s, Start(now, msec, slot), n, inter), n, slot, Started(n, slot, now, msec));
    } else {
      HistoryLater(s, Apply(s, Start(now, msec, slot), n, inter), n);
    }
  }

  lemma {:induction false} SlotsBacked(s: State, slot: Slot)
    requires Backed(s)
    ensures slot in s.live <==> slot in s.paras
  {
  }

  lemma {:induction false} HistoryLater(s: State, s': State, n: nat)
    requires OnceOnly(s, n) && s'.live == s.live && s'.fired == s.fired && s'.stopped == s.stopped
    ensures OnceOnly(s', n + 1)
  {
  }

  lemma {:induction false} StepStop(s: State, n: nat, inter: int, slot: Slot)
    requires Sound(s, n, inter) && (slot in s.paras ==> !Shared(s.paras, slot, s.paras[slot]))
    ensures Sound(Apply(s, Stop(slot), n, inter), n + 1, inter)
  {
    hide Agree, Shared, KeyFor, Due, Without, OnceOnly;
    SlotsBacked(s, slot);
    if slot in s.paras {
      StopKeeps(s.timers, s.paras, inter, slot);
      StopHistory(s, Apply(s, Stop(slot), n, inter), n, slot);
    } else {
      HistoryLater(s, s, n);
    }
  }

  lemma {:induction false} StepCheck(s: State, n: nat, inter: int, now: Timeval)
    requires Sound(s, n, inter) && Normal(now)
    ensures Sound(Apply(s, Check(now), n, inter), n + 1, inter)
  {
    hide Agree, KeyFor, Due, Less, OnceOnly;
    if s.timers != [] && Less(s.timers[0].key, now) {
      FireKeeps(s.timers, s.paras, inter);
      var slot := SlotOf(s.timers[0].timer);
      SlotsBacked(s, slot);
      FireHistory(s, Apply(s, Check(now), n, inter), n, slot, now);
      NeverEarly(s.live[slot].now, s.live[slot].msec, now);
    } else {
      HistoryLater(s, s, n);
    }
  }

  lemma {:induction false} RunSound(ops: seq<Op>, inter: int)
    requires Unshared(ops, inter)
    ensures Sound(Run(ops, inter), |ops|, inter)
  {
    hide Sound, Shared, KeyFor, Apply;
    if ops == [] {
      SoundEmpty(inter);
    } else {
      var before := ops[..|ops| - 1];
      RunSound(before, inter);
      var s := Run(before, inter);
      match ops[|ops| - 1] {
        case Start(now, msec, slot) => StepStart(s, |before|, inter, now, msec, slot);
        case Stop(slot) => StepStop(s, |before|, inter, slot);
        case Check(now) => StepCheck(s, |before|, inter, now);
      }
    }
  }

  lemma {:induction false} SoundEmpty(inter: int)
    ensures Sound(EMPTY, 0, inter)
  {
    AgreeEmpty(inter);
  }

  /** In every run of one interface in which no operation meets another pending timer with the same key and flag: both
      indexes hold the same pending timers; a started timer fires at most once, never once stopped, and never before
      the time it was asked for; and each time its owner is notified. */
  lemma {:induction false} TimersRun(ops: seq<Op>, inter: int)
    requires Unshared(ops, inter)
    ensures var s := Run(ops, inter);
      && Agree(s.timers, s.paras, inter)
      && (forall i, j | 0 <= i < j < |s.fired| :: s.fired[i].started.id != s.fired[j].started.id)
      && (forall i | 0 <= i < |s.fired| :: s.fired[i].started.id !in s.stopped)
      && OnTime(s) && Notifies(s)
  {
    RunSound(ops, inter);
  }

  /** And when the clock has been checked until nothing fires, no timer due a second ago is still pending. */
  lemma {:induction false} NothingOverdue(ops: seq<Op>, inter: int, now: Timeval)
    requires Unshared(ops, inter) && Normal(now)
    requires forall e | e in Run(ops, inter).timers :: !Less(e.key, now)
    ensures forall slot | slot in Run(ops, inter).live ::
      var started := Run(ops, inter).live[slot]; Micros(now) < Due(started.now, started.msec) + SECOND
  {
    RunSound(ops, inter);
    var s := Run(ops, inter);
    forall slot | slot in s.live
      ensures var started := s.live[slot]; Micros(now) < Due(started.now, started.msec) + SECOND
    {
      var e := EntryOf(slot, s.paras[slot], inter);
      assert multiset(s.timers)[e] == 1;
      assert e in s.timers;
      NeverEarly(s.live[slot].now, s.live[slot].msec, now);
    }
  }

  /** A program's operations on an AppTimer, one after the other: the indexes and the notifications are those of the
      run. */
  method Perform(ops: seq<Op>, inter: int) returns (app: AppTimer, notified: seq<Timer>)
    ensures fresh(app) && app.Valid()
    ensures var s := Run(ops, inter); app.timerMap == s.timers && app.paraMap == s.paras && notified == s.notified
  {
    hide KeyFor, TimersAfterStart, ParasAfterStart, Less;
    app := new AppTimer();
    notified := [];
    for i := 0 to |ops|
      invariant app.Valid() && fresh(app)
      invariant var s := Run(ops[..i], inter);
        app.timerMap == s.timers && app.paraMap == s.paras && notified == s.notified
    {
      assert ops[..i + 1][..i] == ops[..i];
      match ops[i] {
        case Start(now, msec, slot) =>
          var _ := app.StartTimer(now, msec, inter, slot.flag, slot.para);
        case Stop(slot) =>
          app.StopTimer(inter, slot.flag, slot.para);
        case Check(now) =>
          var fired := app.CheckExpires(now);
          if fired.Some? {
            notified := notified + [fired.value];
          }
      }
    }
    assert ops[..|ops|] == ops;
  }

  // ---- timers that share key and flag ----

  lemma {:induction false} RunNext(ops: seq<Op>, op: Op, inter: int)
    ensures Run(ops + [op], inter) == Apply(Run(ops, inter), op, |ops|, inter)
  {
    assert (ops + [op])[..|ops|] == ops;
  }

  lemma {:induction false} KeyAtZero(seconds: nat)
    ensures KeyFor(Timeval(0, 0), 1000 * seconds) == Timeval(seconds, 0)
  {
    var msec := 1000 * seconds;
    assert Quotient(msec, 1000) == seconds && Remainder(msec, 1000) == 0;
    assert Quotient(0, SECOND) == 0;
    hide Quotient, Remainder;
  }

  lemma {:induction false} WithoutAll(s: seq<Entry>, key: Timeval, flag: int, inter: int)
    requires forall e | e in s :: Matches(e, key, flag, inter)
    ensures Without(s, key, flag, inter) == []
  {
    if s != [] {
      WithoutAll(s[..|s| - 1], key, flag, inter);
    }
  }

  /** A start in a free slot after the operations before it. */
  lemma {:induction false} StartedFree(ops: seq<Op>, slot: Slot, seconds: nat, inter: int)
    requires slot !in Run(ops, inter).paras
    ensures var s, s' := Run(ops, inter), Run(ops + [Start(Timeval(0, 0), 1000 * seconds, slot)], inter);
      && s'.timers == Inserted(s.timers, EntryOf(slot, Timeval(seconds, 0), inter))
      && s'.paras == s.paras[slot := Timeval(seconds, 0)]
  {
    KeyAtZero(seconds);
    RunNext(ops, Start(Timeval(0, 0), 1000 * seconds, slot), inter);
    hide Run, KeyFor, Inserted;
  }

  /** A start in a taken slot. */
  lemma {:induction false} StartedTaken(ops: seq<Op>, slot: Slot, seconds: nat, inter: int)
    requires slot in Run(ops, inter).paras
    ensures var s, s' := Run(ops, inter), Run(ops + [Start(Timeval(0, 0), 1000 * seconds, slot)], inter);
      var key := Timeval(seconds, 0);
      && s'.timers == Without(Inserted(s.timers, EntryOf(slot, key, inter)), key, slot.flag, inter)
      && s'.paras == s.paras
  {
    KeyAtZero(seconds);
    RunNext(ops, Start(Timeval(0, 0), 1000 * seconds, slot), inter);
    hide Run, KeyFor, Inserted, Without;
  }

  /** multimap::insert behind one entry and before others. */
  lemma {:induction false} InsertedBehind(first: Entry, e: Entry, s: seq<Entry>)
    requires !Less(e.key, first.key) && (s != [] ==> Less(e.key, s[0].key))
    ensures Inserted([first] + s, e) == [first, e] + s
  {
    assert ([first] + s)[1..] == s;
  }

  /** Timers in the slots 1 and 2 of flag 7, due after one second and after the given number of them. */
  lemma {:induction false} TwoStarts(seconds: nat, inter: int)
    requires seconds >= 1
    ensures var t, a, b := Timeval(0, 0), Slot(1, 7), Slot(2, 7);
      var s := Run([Start(t, 1000 * 1, a)] + [Start(t, 1000 * seconds, b)], inter);
      && s.timers == [EntryOf(a, Timeval(1, 0), inter), EntryOf(b, Timeval(seconds, 0), inter)]
      && s.paras == map[a := Timeval(1, 0), b := Timeval(seconds, 0)]
  {
    hide Run, Inserted;
    var t, a, b := Timeval(0, 0), Slot(1, 7), Slot(2, 7);
    OneStart(inter);
    StartedFree([Start(t, 1000 * 1, a)], b, seconds, inter);
    var x, y := EntryOf(a, Timeval(1, 0), inter), EntryOf(b, Timeval(seconds, 0), inter);
    InsertedBehind(x, y, []);
    assert [x] + [] == [x] && [x, y] + [] == [x, y];
  }

  lemma {:induction false} NothingYet(e: Entry, inter: int)
    ensures Run([], inter) == EMPTY && Inserted([], e) == [e]
  {
  }

  lemma {:induction false} OneStart(inter: int)
    ensures var t, a := Timeval(0, 0), Slot(1, 7);
      var s := Run([Start(t, 1000 * 1, a)], inter);
      s.timers == [EntryOf(a, Timeval(1, 0), inter)] && s.paras == map[a := Timeval(1, 0)]
  {
    hide Run, Inserted;
    var a := Slot(1, 7);
    NothingYet(EntryOf(a, Timeval(1, 0), inter), inter);
    StartedFree([], a, 1, inter);
    var ops := [Start(Timeval(0, 0), 1000 * 1, a)];
    assert [] + ops == ops;
  }

  /** Two timers started at the same moment: stopping one takes both away, and the other never fires. */
  lemma {:induction false} StopTakesBoth(inter: int)
    ensures var t, a, b := Timeval(0, 0), Slot(1, 7), Slot(2, 7);
      var s := Run([Start(t, 1000, a), Start(t, 1000, b), Stop(a)], inter);
      s.timers == [] && b in s.paras
  {
    hide Run, Without;
    var t, a, b := Timeval(0, 0), Slot(1, 7), Slot(2, 7);
    var two := [Start(t, 1000 * 1, a)] + [Start(t, 1000 * 1, b)];
    TwoStarts(1, inter);
    RunNext(two, Stop(a), inter);
    assert two + [Stop(a)] == [Start(t, 1000, a), Start(t, 1000, b), Stop(a)];
    WithoutAll([EntryOf(a, Timeval(1, 0), inter), EntryOf(b, Timeval(1, 0), inter)], Timeval(1, 0), 7, inter);
  }

  /** Starting a timer again at the same moment fails and takes the first one away. */
  lemma {:induction false} RestartTakesFirst(inter: int)
    ensures var t, a := Timeval(0, 0), Slot(1, 7);
      var s := Run([Start(t, 1000, a), Start(t, 1000, a)], inter);
      s.timers == [] && a in s.paras
  {
    hide Run, Without, Inserted;
    var t, a := Timeval(0, 0), Slot(1, 7);
    var one := [Start(t, 1000 * 1, a)];
    OneStart(inter);
    StartedTaken(one, a, 1, inter);
    assert one + one == [Start(t, 1000, a), Start(t, 1000, a)];
    var x := EntryOf(a, Timeval(1, 0), inter);
    InsertedBehind(x, x, []);
    assert [x] + [] == [x] && [x, x] + [] == [x, x];
    WithoutAll([x, x], Timeval(1, 0), 7, inter);
  }

  /** A failing start takes away another slot's timer with the same key and flag. */
  lemma {:induction false} RestartTakesOther(inter: int)
    ensures var t, a, b := Timeval(0, 0), Slot(1, 7), Slot(2, 7);
      var s := Run([Start(t, 1000, a), Start(t, 2000, b), Start(t, 1000, b)], inter);
      s.timers == [EntryOf(b, Timeval(2, 0), inter)] && a in s.paras
  {
    hide Run, Without, Inserted;
    var t, a, b := Timeval(0, 0), Slot(1, 7), Slot(2, 7);
    var two := [Start(t, 1000 * 1, a)] + [Start(t, 1000 * 2, b)];
    TwoStarts(2, inter);
    StartedTaken(two, b, 1, inter);
    assert two + [Start(t, 1000 * 1, b)] == [Start(t, 1000, a), Start(t, 2000, b), Start(t, 1000, b)];
    var x, y, z := EntryOf(a, Timeval(1, 0), inter), EntryOf(b, Timeval(2, 0), inter), EntryOf(b, Timeval(1, 0), inter);
    InsertedBehind(x, z, [y]);
    assert [x] + [y] == [x, y];
    WithoutAppend([x, z], [y], Timeval(1, 0), 7, inter);
    WithoutAll([x, z], Timeval(1, 0), 7, inter);
    WithoutNone([y], Timeval(1, 0), 7, inter);
  }
}
