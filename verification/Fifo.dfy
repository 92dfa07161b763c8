/** The thread-safe fifo of port_fifo.c (OSIP_MT build): any number of threads, one step of one thread at a time. */
module Fifo {
  import opened Options

  /** What a void pointer in the queue points to does not matter here. */
  type Elem = int

  type Tid = nat

  const MAX_LEN: nat := 1000

  datatype FifoState = OsipOk | OsipFull | OsipEmpty

  /** Where a thread is in osip_fifo_add / insert (front) and osip_fifo_get / tryget. */
  datatype Pc =
    | Idle
    | PutLock(el: Elem, front: bool)
    | PutCheck(el: Elem, front: bool)
    | PutState
    | PutPost
    | PutDone
    | GetWait
    | TryWait
    | GetLock
    | GetCheck
    | GetState(got: Elem)
    | GetDone(result: Option<Elem>)

  datatype Event = Put(el: Elem, front: bool) | Take(el: Elem)

  /** The shared fifo, the lock's owner, the semaphore, every thread's position, and what has happened so far:
      the changes made to the queue in order, and the elements handed back to callers. */
  datatype State = State(
    queue: seq<Elem>,
    state: FifoState,
    sem: nat,
    owner: Option<Tid>,
    pcs: map<Tid, Pc>,
    log: seq<Event>,
    returned: multiset<Elem>)

  predicate Init(s: State)
  {
    && s.queue == [] && s.state == OsipEmpty && s.sem == 0 && s.owner == None
    && (forall t | t in s.pcs :: s.pcs[t] == Idle)
    && s.log == [] && s.returned == multiset{}
  }

  function At(s: State, t: Tid, pc: Pc): (r: State)
  {
    s.(pcs := s.pcs[t := pc])
  }

  /** osip_list_add at the end (pos -1) or before the first element (pos 0). */
  function Inserted(q: seq<Elem>, el: Elem, front: bool): (r: seq<Elem>)
  {
    if front then [el] + q else q + [el]
  }

  function AfterPut(n: nat): (r: FifoState)
  {
    if n >= MAX_LEN then OsipFull else OsipOk
  }

  function AfterGet(n: nat): (r: FifoState)
  {
    if n <= 0 then OsipEmpty else OsipOk
  }

  datatype Call = Add(el: Elem) | Insert(el: Elem) | Get | TryGet

  function Entry(c: Call): (r: Pc)
  {
    match c
    case Add(el) => PutLock(el, false)
    case Insert(el) => PutLock(el, true)
    case Get => GetWait
    case TryGet => TryWait
  }

  /** A thread calls one of the four operations. */
  predicate Enter(s: State, s': State, t: Tid, c: Call)
  {
    t in s.pcs && s.pcs[t] == Idle && s' == At(s, t, Entry(c))
  }

  /** One statement of the code run by thread t. */
  predicate Run(s: State, s': State, t: Tid)
  {
    t in s.pcs &&
    match s.pcs[t]
    case Idle => false
    case PutLock(el, front) => s.owner == None && s' == At(s, t, PutCheck(el, front)).(owner := Some(t))
    case PutCheck(el, front) =>
      if s.state != OsipFull then
        s' == At(s, t, PutState).(queue := Inserted(s.queue, el, front), log := s.log + [Put(el, front)])
      else
        s' == At(s, t, PutDone)
    case PutState => s' == At(s, t, PutPost).(state := AfterPut(|s.queue|))
    case PutPost => s' == At(s, t, PutDone).(sem := s.sem + 1)
    case PutDone => s' == At(s, t, Idle).(owner := None)
    case GetWait =>
      // osip_sem_wait takes a unit, or fails and the call returns NULL
      (s.sem > 0 && s' == At(s, t, GetLock).(sem := s.sem - 1)) || s' == At(s, t, Idle)
    case TryWait =>
      if s.sem > 0 then s' == At(s, t, GetLock).(sem := s.sem - 1) else s' == At(s, t, Idle)
    case GetLock => s.owner == None && s' == At(s, t, GetCheck).(owner := Some(t))
    case GetCheck =>
      if s.state != OsipEmpty then
        if s.queue == [] then s' == At(s, t, GetState(0)) // osip_list_get answers NULL
        else s' == At(s, t, GetState(s.queue[0])).(queue := s.queue[1..], log := s.log + [Take(s.queue[0])])
      else
        s' == At(s, t, GetDone(None)) // the branch that must never happen
    case GetState(el) => s' == At(s, t, GetDone(Some(el))).(state := AfterGet(|s.queue|))
    case GetDone(r) =>
      s' == At(s, t, Idle).(owner := None, returned := s.returned + if r.Some? then multiset{r.value} else multiset{})
  }

  ghost predicate Next(s: State, s': State)
  {
    (exists t, c :: Enter(s, s', t, c)) || exists t :: Run(s, s', t)
  }

  /** A run from the initialised fifo, by any interleaving. */
  ghost predicate IsRun(states: seq<State>)
  {
    states != [] && Init(states[0]) && forall i | 0 <= i < |states| - 1 :: Next(states[i], states[i + 1])
  }

  // ---- the invariant ----

  predicate Inside(pc: Pc)
  {
    pc.PutCheck? || pc.PutState? || pc.PutPost? || pc.PutDone? || pc.GetCheck? || pc.GetState? || pc.GetDone?
  }

  /** Past the semaphore, with its element still in the queue. */
  predicate Past(pc: Pc)
  {
    pc.GetLock? || pc.GetCheck?
  }

  function PastWait(s: State): (r: set<Tid>)
  {
    set t | t in s.pcs && Past(s.pcs[t])
  }

  function OwnerPc(s: State): (r: Pc)
  {
    if s.owner.Some? && s.owner.value in s.pcs then s.pcs[s.owner.value] else Idle
  }

  /** The state field that belongs to a queue of length n. */
  function StateFor(n: nat): (r: FifoState)
  {
    if n == 0 then OsipEmpty else if n >= MAX_LEN then OsipFull else OsipOk
  }

  /** An element on the queue whose unit has not been posted yet. */
  function Unposted(s: State): (r: nat)
  {
    if OwnerPc(s).PutState? || OwnerPc(s).PutPost? then 1 else 0
  }

  /** The lock is held by exactly the thread that is inside. */
  ghost predicate LockInv(s: State)
  {
    && (forall t | t in s.pcs && Inside(s.pcs[t]) :: s.owner == Some(t))
    && (s.owner.Some? ==> s.owner.value in s.pcs && Inside(s.pcs[s.owner.value]))
  }

  /** Semaphore units, getters past the wait and the element not yet posted add up to the queue. */
  ghost predicate CountInv(s: State)
  {
    s.sem + |PastWait(s)| + Unposted(s) == |s.queue| <= MAX_LEN
  }

  /** The state field follows the length, except between a change and its update under the lock. */
  ghost predicate StateInv(s: State)
  {
    !OwnerPc(s).PutState? && !OwnerPc(s).GetState? ==> s.state == StateFor(|s.queue|)
  }

  ghost predicate Inv(s: State)
  {
    LockInv(s) && CountInv(s) && StateInv(s) && (OwnerPc(s).GetDone? ==> OwnerPc(s).result.Some?)
    && (OwnerPc(s).GetState? ==> |s.queue| < MAX_LEN)
  }

  function PastBut(s: State, t: Tid): (r: set<Tid>)
  {
    set u | u in s.pcs && u != t && Past(s.pcs[u])
  }

  lemma {:induction false} PastSplit(s: State, t: Tid)
    requires t in s.pcs
    ensures |PastWait(s)| == |PastBut(s, t)| + if Past(s.pcs[t]) then 1 else 0
  {
    if Past(s.pcs[t]) {
      assert PastWait(s) == PastBut(s, t) + {t};
    } else {
      assert PastWait(s) == PastBut(s, t);
    }
  }

  lemma {:induction false} PastMove(s: State, s': State, t: Tid)
    requires t in s.pcs && t in s'.pcs && s'.pcs == s.pcs[t := s'.pcs[t]]
    ensures |PastWait(s')| == |PastWait(s)| + (if Past(s'.pcs[t]) then 1 else 0) - (if Past(s.pcs[t]) then 1 else 0)
  {
    PastSplit(s, t);
    PastSplit(s', t);
    assert PastBut(s', t) == PastBut(s, t);
  }

  lemma {:induction false} InvInit(s: State)
    requires Init(s)
    ensures Inv(s)
  {
    assert PastWait(s) == {};
  }

  lemma {:induction false} InvEnter(s: State, s': State, t: Tid, c: Call)
    requires Inv(s) && Enter(s, s', t, c)
    ensures Inv(s')
  {
    PastMove(s, s', t);
  }

  /** A getter past the wait finds the queue, and the state field, not empty. */
  lemma {:induction false} GetterFinds(s: State, t: Tid)
    requires Inv(s) && t in s.pcs && s.pcs[t].GetCheck?
    ensures s.queue != [] && s.state != OsipEmpty
  {
    assert t in PastWait(s);
  }

  predicate Putting(pc: Pc)
  {
    pc.PutLock? || pc.PutCheck? || pc.PutState? || pc.PutPost? || pc.PutDone?
  }

  lemma {:induction false} InvPut(s: State, s': State, t: Tid)
    requires Inv(s) && Run(s, s', t) && Putting(s.pcs[t])
    ensures Inv(s')
  {
    hide PastWait;
    PastMove(s, s', t);
  }

  predicate Waiting(pc: Pc)
  {
    pc.Idle? || pc.GetWait? || pc.TryWait? || pc.GetLock?
  }

  lemma {:induction false} InvWait(s: State, s': State, t: Tid)
    requires Inv(s) && Run(s, s', t) && Waiting(s.pcs[t])
    ensures Inv(s')
  {
    hide PastWait;
    PastMove(s, s', t);
  }

  lemma {:induction false} InvGet(s: State, s': State, t: Tid)
    requires Inv(s) && Run(s, s', t) && !Putting(s.pcs[t]) && !Waiting(s.pcs[t])
    ensures Inv(s')
  {
    hide PastWait;
    PastMove(s, s', t);
    if s.pcs[t].GetCheck? {
      GetterFinds(s, t);
    }
  }

  lemma {:induction false} InvRun(s: State, s': State, t: Tid)
    requires Inv(s) && Run(s, s', t)
    ensures Inv(s')
  {
    assert t in s.pcs;
    hide Inv, Run;
    if Putting(s.pcs[t]) {
      InvPut(s, s', t);
    } else if Waiting(s.pcs[t]) {
      InvWait(s, s', t);
    } else {
      InvGet(s, s', t);
    }
  }

  // ---- what happened, replayed on a sequential queue ----

  /** The queue after the recorded changes; None if a Take did not find its element at the head. */
  function Replay(log: seq<Event>): (r: Option<seq<Elem>>)
  {
    if log == [] then Some([])
    else
      match (Replay(log[..|log| - 1]), log[|log| - 1])
      case (None, _) => None
      case (Some(q), Put(el, front)) => Some(Inserted(q, el, front))
      case (Some(q), Take(el)) => if q != [] && q[0] == el then Some(q[1..]) else None
  }

  function PutSeq(log: seq<Event>): (r: seq<Elem>)
  {
    if log == [] then []
    else PutSeq(log[..|log| - 1]) + if log[|log| - 1].Put? then [log[|log| - 1].el] else []
  }

  function TakeSeq(log: seq<Event>): (r: seq<Elem>)
  {
    if log == [] then []
    else TakeSeq(log[..|log| - 1]) + if log[|log| - 1].Take? then [log[|log| - 1].el] else []
  }

  /** The element a getter holds inside the lock and has not handed back yet. */
  function InFlight(s: State): (r: multiset<Elem>)
  {
    match OwnerPc(s)
    case GetState(el) => multiset{el}
    case GetDone(Some(el)) => multiset{el}
    case _ => multiset{}
  }

  /** The shared queue is what the recorded changes make of an empty one, and every element taken is with one caller. */
  ghost predicate LogInv(s: State)
  {
    && Replay(s.log) == Some(s.queue)
    && multiset(TakeSeq(s.log)) == s.returned + InFlight(s)
  }

  lemma {:induction false} LogPut(log: seq<Event>, el: Elem, front: bool)
    requires Replay(log).Some?
    ensures Replay(log + [Put(el, front)]) == Some(Inserted(Replay(log).value, el, front))
    ensures TakeSeq(log + [Put(el, front)]) == TakeSeq(log)
  {
    assert (log + [Put(el, front)])[..|log|] == log;
  }

  lemma {:induction false} LogTake(log: seq<Event>, el: Elem)
    requires Replay(log).Some? && Replay(log).value != [] && Replay(log).value[0] == el
    ensures Replay(log + [Take(el)]) == Some(Replay(log).value[1..])
    ensures TakeSeq(log + [Take(el)]) == TakeSeq(log) + [el]
  {
    assert (log + [Take(el)])[..|log|] == log;
  }

  /** A thread's own position is the owner's position exactly while it is inside. */
  lemma {:induction false} OwnerMove(s: State, s': State, t: Tid)
    requires Inv(s) && Inv(s') && t in s.pcs && t in s'.pcs && s'.pcs == s.pcs[t := s'.pcs[t]]
    requires s'.owner == s.owner || Inside(s.pcs[t]) != Inside(s'.pcs[t])
    ensures Inside(s.pcs[t]) ==> OwnerPc(s) == s.pcs[t]
    ensures Inside(s'.pcs[t]) ==> OwnerPc(s') == s'.pcs[t]
    ensures !Inside(s.pcs[t]) && !Inside(s'.pcs[t]) ==> OwnerPc(s') == OwnerPc(s)
  {
  }

  lemma {:induction false} LogRunPut(s: State, s': State, t: Tid)
    requires Inv(s) && LogInv(s) && Run(s, s', t) && s.pcs[t].PutCheck?
    ensures LogInv(s')
  {
    InvRun(s, s', t);
    OwnerMove(s, s', t);
    LogPut(s.log, s.pcs[t].el, s.pcs[t].front);
    hide Replay, TakeSeq, Inv, OwnerPc;
    assert InFlight(s) == InFlight(s') == multiset{};
  }

  /** The step that takes an element. */
  lemma {:induction false} TakeStep(s: State, s': State, t: Tid)
    requires Inv(s) && Run(s, s', t) && s.pcs[t].GetCheck?
    ensures s.queue != [] && s'.queue == s.queue[1..] && s'.log == s.log + [Take(s.queue[0])]
    ensures s'.returned == s.returned && InFlight(s) == multiset{} && InFlight(s') == multiset{s.queue[0]}
  {
    InvRun(s, s', t);
    OwnerMove(s, s', t);
    GetterFinds(s, t);
    hide Inv, OwnerPc;
  }

  lemma {:induction false} LogRunTake(s: State, s': State, t: Tid)
    requires Inv(s) && LogInv(s) && Run(s, s', t) && s.pcs[t].GetCheck?
    ensures LogInv(s')
  {
    TakeStep(s, s', t);
    hide Replay, TakeSeq, Inv, Run, InFlight;
    LogTake(s.log, s.queue[0]);
    TakenMore(TakeSeq(s.log), s.queue[0]);
  }

  lemma {:induction false} TakenMore(taken: seq<Elem>, el: Elem)
    ensures multiset(taken + [el]) == multiset(taken) + multiset{el}
  {
  }

  /** The getter inside the lock keeps its element until it hands it back. */
  lemma {:induction false} LogRunHand(s: State, s': State, t: Tid)
    requires Inv(s) && LogInv(s) && Run(s, s', t) && (s.pcs[t].GetState? || s.pcs[t].GetDone?)
    ensures LogInv(s')
  {
    InvRun(s, s', t);
    OwnerMove(s, s', t);
    hide Replay, TakeSeq, Inv, OwnerPc, AfterGet;
    if s.pcs[t].GetDone? {
      LockFree(s');
    }
  }

  lemma {:induction false} LogRunRest(s: State, s': State, t: Tid)
    requires Inv(s) && LogInv(s) && Run(s, s', t)
    requires !s.pcs[t].PutCheck? && !s.pcs[t].GetCheck? && !s.pcs[t].GetState? && !s.pcs[t].GetDone?
    ensures LogInv(s')
  {
    InvRun(s, s', t);
    OwnerMove(s, s', t);
    hide Replay, TakeSeq, Inv, OwnerPc, AfterPut;
    if s.owner == None {
      LockFree(s);
    }
    if s'.owner == None {
      LockFree(s');
    }
    assert InFlight(s) == InFlight(s');
  }

  lemma {:induction false} LogRun(s: State, s': State, t: Tid)
    requires Inv(s) && LogInv(s) && Run(s, s', t)
    ensures LogInv(s')
  {
    assert t in s.pcs;
    hide Inv, LogInv, Run;
    if s.pcs[t].PutCheck? {
      LogRunPut(s, s', t);
    } else if s.pcs[t].GetCheck? {
      LogRunTake(s, s', t);
    } else if s.pcs[t].GetState? || s.pcs[t].GetDone? {
      LogRunHand(s, s', t);
    } else {
      LogRunRest(s, s', t);
    }
  }

  lemma {:induction false} LockFree(s: State)
    requires s.owner == None
    ensures InFlight(s) == multiset{}
  {
  }

  lemma {:induction false} LogEnter(s: State, s': State, t: Tid, c: Call)
    requires Inv(s) && LogInv(s) && Enter(s, s', t, c)
    ensures LogInv(s')
  {
    hide Replay, TakeSeq;
    InvEnter(s, s', t, c);
    OwnerMove(s, s', t);
  }

  /** Nothing is lost or duplicated: what was put is what was taken and what is still queued. */
  lemma {:induction false} Conservation(log: seq<Event>)
    requires Replay(log).Some?
    ensures multiset(PutSeq(log)) == multiset(TakeSeq(log)) + multiset(Replay(log).value)
  {
    if log != [] {
      var rest, e := log[..|log| - 1], log[|log| - 1];
      Conservation(rest);
      var q := Replay(rest).value;
      match e {
        case Take(el) => HeadLeaves(TakeSeq(rest), q, el);
        case Put(el, front) => Comes(PutSeq(rest), q, el, front);
      }
    }
  }

  lemma {:induction false} HeadLeaves(taken: seq<Elem>, q: seq<Elem>, el: Elem)
    requires q != [] && q[0] == el
    ensures multiset(taken + [el]) + multiset(q[1..]) == multiset(taken) + multiset(q)
  {
    assert q == [el] + q[1..];
  }

  lemma {:induction false} Comes(put: seq<Elem>, q: seq<Elem>, el: Elem, front: bool)
    ensures multiset(put + [el]) == multiset(put) + multiset{el}
    ensures multiset(Inserted(q, el, front)) == multiset(q) + multiset{el}
  {
  }

  /** Without osip_fifo_insert the elements come out in the order they were added. */
  lemma {:induction false} FirstInFirstOut(log: seq<Event>)
    requires Replay(log).Some? && forall e | e in log :: e.Put? ==> !e.front
    ensures PutSeq(log) == TakeSeq(log) + Replay(log).value
  {
    if log != [] {
      var rest, e := log[..|log| - 1], log[|log| - 1];
      FirstInFirstOut(rest);
      var q := Replay(rest).value;
      if e.Take? {
        assert q == [q[0]] + q[1..];
      }
    }
  }

  // ---- each operation on its own ----

  /** What insert puts is the only element that can be taken next, and taking it undoes the insert. */
  lemma {:induction false} InsertedIsNext(log: seq<Event>, el: Elem, x: Elem)
    requires Replay(log).Some?
    ensures var more := log + [Put(el, true), Take(x)];
      (Replay(more).Some? <==> x == el) && (x == el ==> Replay(more) == Replay(log))
  {
    var q, put := Replay(log).value, log + [Put(el, true)];
    LogPut(log, el, true);
    assert log + [Put(el, true), Take(x)] == put + [Take(x)];
    assert (put + [Take(x)])[..|put|] == put;
    hide Replay;
    ReplayTake(put, x);
    assert Inserted(q, el, true)[1..] == q;
  }

  lemma {:induction false} ReplayTake(log: seq<Event>, x: Elem)
    requires Replay(log).Some?
    ensures var q := Replay(log).value;
      Replay(log + [Take(x)]) == if q != [] && q[0] == x then Some(q[1..]) else None
  {
    assert (log + [Take(x)])[..|log|] == log;
  }

  /** The statement that changes the queue: insert puts its element first, add puts it last, a full fifo takes none. */
  lemma {:induction false} PutStep(s: State, s': State, t: Tid)
    requires Inv(s) && Run(s, s', t) && s.pcs[t].PutCheck?
    ensures var pc := s.pcs[t];
      s'.queue == if |s.queue| >= 1000 then s.queue else if pc.front then [pc.el] + s.queue else s.queue + [pc.el]
  {
    assert Inside(s.pcs[t]);
  }

  /** Thread t makes one call, from its beginning to its end, and no other thread runs. */
  ghost predicate Alone(states: seq<State>, t: Tid, c: Call)
  {
    && |states| >= 2 && Enter(states[0], states[1], t, c)
    && (forall i | 1 <= i < |states| - 1 :: Busy(states[i], t) && Run(states[i], states[i + 1], t))
    && !Busy(states[|states| - 1], t)
  }

  predicate Busy(s: State, t: Tid)
  {
    t in s.pcs && s.pcs[t] != Idle
  }

  /** Only the caller's own position has changed since the call began. */
  predicate OnlyMoved(s: State, s': State, t: Tid)
  {
    t in s'.pcs && s'.pcs == s.pcs[t := s'.pcs[t]]
  }

  lemma {:induction false} AloneBegins(states: seq<State>, t: Tid, c: Call)
    requires Alone(states, t, c)
    ensures |states| >= 2 && t in states[0].pcs && states[0].pcs[t] == Idle && states[1] == At(states[0], t, Entry(c))
    ensures OnlyMoved(states[0], states[1], t) && Busy(states[1], t)
  {
  }

  /** One statement in a call that is not over. */
  lemma {:induction false} AloneStep(states: seq<State>, t: Tid, c: Call, i: nat)
    requires Alone(states, t, c) && 1 <= i < |states| && Busy(states[i], t) && OnlyMoved(states[0], states[i], t)
    ensures i + 1 < |states| && Run(states[i], states[i + 1], t) && OnlyMoved(states[0], states[i + 1], t)
  {
    hide Enter;
    var s, s' := states[i], states[i + 1];
    assert s'.pcs == s.pcs[t := s'.pcs[t]];
    hide Run;
  }

  lemma {:induction false} AloneEnds(states: seq<State>, t: Tid, c: Call, i: nat)
    requires Alone(states, t, c) && 1 <= i < |states| && !Busy(states[i], t) && OnlyMoved(states[0], states[i], t)
    ensures i == |states| - 1 && states[i].pcs == states[0].pcs
  {
    hide Run;
    assert states[0].pcs[t] == Idle;
  }

  lemma {:induction false} StateAtRest(s: State)
    requires Inv(s) && s.owner == None
    ensures (s.state == OsipEmpty <==> s.queue == []) && (s.state == OsipFull <==> |s.queue| >= 1000)
    ensures s.sem <= |s.queue|
  {
  }

  lemma {:induction false} PutAlone(states: seq<State>, t: Tid, c: Call, el: Elem, front: bool)
    requires Alone(states, t, c) && Inv(states[0]) && states[0].owner == None && Entry(c) == PutLock(el, front)
    ensures var s, s' := states[0], states[|states| - 1];
      && s'.owner == None && s'.pcs == s.pcs && s'.returned == s.returned
      && if |s.queue| >= 1000 then s'.queue == s.queue && s'.sem == s.sem
         else s'.queue == (if front then [el] + s.queue else s.queue + [el]) && s'.sem == s.sem + 1
  {
    hide Alone, Inv, OnlyMoved;
    AloneBegins(states, t, c);
    var s := states[0];
    StateAtRest(s);
    AloneStep(states, t, c, 1);
    AloneStep(states, t, c, 2);
    AloneStep(states, t, c, 3);
    if |s.queue| >= 1000 {
      AloneEnds(states, t, c, 4);
    } else {
      AloneStep(states, t, c, 4);
      AloneStep(states, t, c, 5);
      AloneEnds(states, t, c, 6);
    }
  }

  /** osip_fifo_add alone: the element is the last one, unless the fifo is full. */
  lemma {:induction false} AddAlone(states: seq<State>, t: Tid, el: Elem)
    requires Alone(states, t, Add(el)) && Inv(states[0]) && states[0].owner == None
    ensures var s, s' := states[0], states[|states| - 1];
      && s'.owner == None && s'.pcs == s.pcs && s'.returned == s.returned
      && s'.queue == (if |s.queue| >= 1000 then s.queue else s.queue + [el])
      && s'.sem == (if |s.queue| >= 1000 then s.sem else s.sem + 1)
  {
    hide Alone, Inv;
    PutAlone(states, t, Add(el), el, false);
  }

  /** osip_fifo_insert alone: the element is the first one, unless the fifo is full. */
  lemma {:induction false} InsertAlone(states: seq<State>, t: Tid, el: Elem)
    requires Alone(states, t, Insert(el)) && Inv(states[0]) && states[0].owner == None
    ensures var s, s' := states[0], states[|states| - 1];
      && s'.owner == None && s'.pcs == s.pcs && s'.returned == s.returned
      && s'.queue == (if |s.queue| >= 1000 then s.queue else [el] + s.queue)
      && s'.sem == (if |s.queue| >= 1000 then s.sem else s.sem + 1)
  {
    hide Alone, Inv;
    PutAlone(states, t, Insert(el), el, true);
  }

  /** osip_fifo_get and osip_fifo_tryget alone: the first element is handed back, or nothing changes, which tryget does
      only when there is no unit to take. */
  lemma {:induction false} GetAlone(states: seq<State>, t: Tid, c: Call)
    requires Alone(states, t, c) && (c == Get || c == TryGet) && Inv(states[0]) && states[0].owner == None
    ensures var s, s' := states[0], states[|states| - 1];
      && s'.owner == None && s'.pcs == s.pcs
      && if s'.sem == s.sem then s'.queue == s.queue && s'.returned == s.returned && (c == TryGet ==> s.sem == 0)
         else
           && s'.sem == s.sem - 1 && s.queue != [] && s'.queue == s.queue[1..]
           && s'.returned == s.returned + multiset{s.queue[0]}
  {
    hide Alone, Inv, OnlyMoved, AfterGet;
    AloneBegins(states, t, c);
    StateAtRest(states[0]);
    AloneStep(states, t, c, 1);
    if Busy(states[2], t) {
      TakeAlone(states, t, c);
    } else {
      AloneEnds(states, t, c, 2);
    }
  }

  /** The statements behind the semaphore. */
  lemma {:induction false} TakeAlone(states: seq<State>, t: Tid, c: Call)
    requires Alone(states, t, c) && |states| > 2 && OnlyMoved(states[0], states[2], t) && Busy(states[2], t)
    requires var s := states[2]; s.pcs[t] == GetLock && s.owner == None && s.queue != [] && s.state != OsipEmpty
    ensures var s, s' := states[2], states[|states| - 1];
      && s'.owner == None && s'.pcs == states[0].pcs && s'.sem == s.sem && s'.queue == s.queue[1..]
      && s'.returned == s.returned + multiset{s.queue[0]}
  {
    hide Alone, OnlyMoved, AfterGet;
    AloneStep(states, t, c, 2);
    AloneStep(states, t, c, 3);
    AloneStep(states, t, c, 4);
    AloneStep(states, t, c, 5);
    AloneEnds(states, t, c, 6);
  }

  /** get waits when there is no unit to take; tryget never does. */
  lemma {:induction false} GetWaits(s: State, s': State, t: Tid, c: Call)
    requires Enter(s, s', t, c) && (c == Get || c == TryGet)
    ensures Blocked(s', t) <==> c == Get && s.sem == 0
  {
    assert s'.pcs[t] == Entry(c);
  }

  // ---- every run ----

  lemma {:induction false} SafeStep(s: State, s': State)
    requires Inv(s) && LogInv(s) && Next(s, s')
    ensures Inv(s') && LogInv(s')
  {
    if t, c :| Enter(s, s', t, c) {
      InvEnter(s, s', t, c);
      LogEnter(s, s', t, c);
    } else {
      var t :| Run(s, s', t);
      InvRun(s, s', t);
      LogRun(s, s', t);
    }
  }

  lemma {:induction false} SafeRun(states: seq<State>, i: nat)
    requires IsRun(states) && i < |states|
    ensures Inv(states[i]) && LogInv(states[i])
  {
    if i == 0 {
      InvInit(states[0]);
    } else {
      SafeRun(states, i - 1);
      SafeStep(states[i - 1], states[i]);
    }
  }

  /** In every run: a getter never reaches the branch that must never happen, the fifo never holds more than 1000
      elements, and whenever the lock is free the semaphore and the getters past it count exactly the queue and the
      state field agrees with it. */
  lemma {:induction false} FifoSafety(states: seq<State>, i: nat)
    requires IsRun(states) && i < |states|
    ensures var s := states[i];
      && |s.queue| <= 1000
      && (forall t | t in s.pcs && s.pcs[t].GetCheck? :: s.state != OsipEmpty && s.queue != [])
      && (s.owner == None ==>
          && s.sem + |PastWait(s)| == |s.queue|
          && (s.state == OsipEmpty <==> s.queue == []) && (s.state == OsipFull <==> |s.queue| == 1000))
      && (forall t, u | t in s.pcs && u in s.pcs && Inside(s.pcs[t]) && Inside(s.pcs[u]) :: t == u)
  {
    SafeRun(states, i);
    var s := states[i];
    forall t | t in s.pcs && s.pcs[t].GetCheck?
      ensures s.state != OsipEmpty && s.queue != []
    {
      GetterFinds(s, t);
    }
  }

  /** In every run: every element put is queued, in one getter's hands, or was returned once; and without insert
      they leave in the order they came. */
  lemma {:induction false} NothingLost(states: seq<State>, i: nat)
    requires IsRun(states) && i < |states|
    ensures var s := states[i];
      && multiset(PutSeq(s.log)) == multiset(s.queue) + InFlight(s) + s.returned
      && ((forall e | e in s.log :: e.Put? ==> !e.front) ==> PutSeq(s.log) == TakeSeq(s.log) + s.queue)
  {
    SafeRun(states, i);
    var s := states[i];
    Conservation(s.log);
    if forall e | e in s.log :: e.Put? ==> !e.front {
      FirstInFirstOut(s.log);
    }
  }

  // ---- no lost wakeup ----

  /** A thread that cannot take its next step: it waits for the lock or, in get, for the semaphore. */
  predicate Blocked(s: State, t: Tid)
    requires t in s.pcs
  {
    match s.pcs[t]
    case PutLock(_, _) => s.owner != None
    case GetLock => s.owner != None
    case GetWait => s.sem == 0
    case _ => false
  }

  lemma {:induction false} UnblockedRuns(s: State, t: Tid) returns (s': State)
    requires t in s.pcs && s.pcs[t] != Idle && !Blocked(s, t)
    ensures Run(s, s', t)
  {
    match s.pcs[t] {
      case PutLock(el, front) => s' := At(s, t, PutCheck(el, front)).(owner := Some(t));
      case PutCheck(el, front) =>
        s' := if s.state != OsipFull then
                At(s, t, PutState).(queue := Inserted(s.queue, el, front), log := s.log + [Put(el, front)])
              else At(s, t, PutDone);
      case PutState => s' := At(s, t, PutPost).(state := AfterPut(|s.queue|));
      case PutPost => s' := At(s, t, PutDone).(sem := s.sem + 1);
      case PutDone => s' := At(s, t, Idle).(owner := None);
      case GetWait => s' := At(s, t, Idle);
      case TryWait => s' := if s.sem > 0 then At(s, t, GetLock).(sem := s.sem - 1) else At(s, t, Idle);
      case GetLock => s' := At(s, t, GetCheck).(owner := Some(t));
      case GetCheck =>
        s' := if s.state == OsipEmpty then At(s, t, GetDone(None))
              else if s.queue == [] then At(s, t, GetState(0))
              else At(s, t, GetState(s.queue[0])).(queue := s.queue[1..], log := s.log + [Take(s.queue[0])]);
      case GetState(el) => s' := At(s, t, GetDone(Some(el))).(state := AfterGet(|s.queue|));
      case GetDone(r) =>
        s' := At(s, t, Idle).(
          owner := None, returned := s.returned + if r.Some? then multiset{r.value} else multiset{});
    }
  }

  /** When some thread is busy and every busy thread is blocked, they are all getters waiting for an empty fifo: no
      wakeup was lost and no lock is stuck. */
  lemma {:induction false} OnlyGettersWait(states: seq<State>, i: nat, t0: Tid)
    requires IsRun(states) && i < |states|
    requires t0 in states[i].pcs && states[i].pcs[t0] != Idle
    requires forall t | t in states[i].pcs && states[i].pcs[t] != Idle :: Blocked(states[i], t)
    ensures var s := states[i];
      && s.queue == [] && s.owner == None
      && forall t | t in s.pcs && s.pcs[t] != Idle :: s.pcs[t] == GetWait
    ensures states[i].sem == 0
  {
    SafeRun(states, i);
    var s := states[i];
    assert s.owner.Some? ==> !Blocked(s, s.owner.value);
    assert s.pcs[t0] == GetWait;
    assert PastWait(s) == {};
  }
}
