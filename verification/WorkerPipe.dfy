/** The message pipe between workers (quickjs-libc.c) as interleaved atomic steps of any number
    of threads: posting and receiving under the mutex, the wake-up pipe, the reference counts of
    the pipe and of the shared array buffers, and the end of the pipe. */
module WorkerPipe {

  /** Shared array buffers are only told apart. */
  type Sab = nat

  /** A message: its data and the buffers it refers to. */
  datatype Message = Message(data: seq<nat>, sabs: seq<Sab>)

  /** Where a thread is. From Signal to Leave with a message it holds the mutex. */
  datatype Pc =
    | Idle
    | Dup(m: Message, i: nat)         // js_worker_postMessage: buffers before i are counted
    | Signal(m: Message)              // ... inside the mutex, before the test for an empty queue
    | Append(m: Message)              // ... before list_add_tail
    | Leave                           // before js_mutex_unlock, without a message
    | Test                            // handle_posted_message: inside the mutex
    | Clear(m: Message)               // ... the message has been removed
    | LeaveWith(m: Message)           // ... before js_mutex_unlock
    | Release(m: Message, i: nat)     // js_free_message: buffers before i are released
    | Drain(q: seq<Message>, i: nat)  // js_free_message_pipe: the last reference is gone

  /** A thread, and how many references to the pipe it owns. */
  datatype Thread = Thread(pc: Pc, refs: nat)

  datatype World = World(
    queue: seq<Message>,
    pending: nat,               // bytes in the wake-up pipe
    owner: int,                 // the thread inside the mutex, or -1
    threads: seq<Thread>,
    refCount: nat,
    destroyed: bool,
    counts: multiset<Sab>,      // the reference counts of the buffers
    external: multiset<Sab>,    // references that no message holds
    posted: seq<Message>,       // history: all messages that were appended,
    received: seq<Message>,     // those that were taken out,
    dropped: seq<Message>       // and those that were freed with the pipe
  )

  // --- steps ---

  predicate InMutex(pc: Pc) {
    pc.Signal? || pc.Append? || pc.Leave? || pc.Test? || pc.Clear? || pc.LeaveWith?
  }

  function SetPc(w: World, t: nat, pc: Pc): World
    requires t < |w.threads|
  {
    w.(threads := w.threads[t := w.threads[t].(pc := pc)])
  }

  /** What a thread does next. Operations begin only in threads that own a reference. */
  datatype Action =
    | Post(m: Message)
    | Receive
    | Continue
    | DupPipe
    | Give(u: nat)
    | FreePipe

  /** js_waker_clear reads up to 16 bytes; it blocks while there are none. */
  function Cleared(pending: nat): nat {
    if pending <= 16 then 0 else pending - 16
  }

  /** The step of thread t; none if it is not possible (or blocks). */
  ghost predicate Step(w: World, t: nat, a: Action, w1: World)
    requires t < |w.threads|
  {
    var th := w.threads[t];
    match a
    case Post(m) => th.pc.Idle? && th.refs > 0 && w1 == SetPc(w, t, Dup(m, 0))
    case Receive => th.pc.Idle? && th.refs > 0 && w.owner == -1 && w1 == SetPc(w, t, Test).(owner := t)
    case DupPipe =>
      th.pc.Idle? && th.refs > 0 &&
      w1 == w.(refCount := w.refCount + 1, threads := w.threads[t := th.(refs := th.refs + 1)])
    case Give(u) =>
      // js_worker_ctor: the reference in the arguments of the new thread becomes that thread's
      th.pc.Idle? && th.refs > 0 && u < |w.threads| && u != t && w.threads[u].pc.Idle? &&
      w1 == w.(threads := w.threads[t := th.(refs := th.refs - 1)][u := w.threads[u].(refs := w.threads[u].refs + 1)])
    case FreePipe =>
      th.pc.Idle? && th.refs > 0 && w.refCount > 0 &&
      var w2 := w.(refCount := w.refCount - 1, threads := w.threads[t := th.(refs := th.refs - 1)]);
      w1 == if w2.refCount == 0 then SetPc(w2, t, Drain(w.queue, 0)).(queue := [], dropped := w.dropped + w.queue) else w2
    case Continue => Continues(w, t, th.pc, w1)
  }

  ghost predicate Continues(w: World, t: nat, pc: Pc, w1: World)
    requires t < |w.threads|
  {
    match pc
    case Idle => false
    case Dup(m, i) =>
      if i < |m.sabs| then w1 == SetPc(w, t, Dup(m, i + 1)).(counts := w.counts + multiset{m.sabs[i]})
      else w.owner == -1 && w1 == SetPc(w, t, Signal(m)).(owner := t)
    case Signal(m) => w1 == SetPc(w, t, Append(m)).(pending := if w.queue == [] then w.pending + 1 else w.pending)
    case Append(m) => w1 == SetPc(w, t, Leave).(queue := w.queue + [m], posted := w.posted + [m])
    case Leave => w1 == SetPc(w, t, Idle).(owner := -1)
    case Test =>
      if w.queue == [] then w1 == SetPc(w, t, Leave)
      else w1 == SetPc(w, t, Clear(w.queue[0])).(queue := w.queue[1..], received := w.received + [w.queue[0]])
    case Clear(m) =>
      if w.queue == [] then w.pending > 0 && w1 == SetPc(w, t, LeaveWith(m)).(pending := Cleared(w.pending))
      else w1 == SetPc(w, t, LeaveWith(m))
    case LeaveWith(m) => w1 == SetPc(w, t, Release(m, 0)).(owner := -1)
    case Release(m, i) =>
      if i < |m.sabs| then w.counts[m.sabs[i]] > 0 && w1 == SetPc(w, t, Release(m, i + 1)).(counts := w.counts - multiset{m.sabs[i]})
      else w1 == SetPc(w, t, Idle)
    case Drain(q, i) =>
      if q == [] then w1 == SetPc(w, t, Idle).(destroyed := true)
      else if i < |q[0].sabs| then
        w.counts[q[0].sabs[i]] > 0 && w1 == SetPc(w, t, Drain(q, i + 1)).(counts := w.counts - multiset{q[0].sabs[i]})
      else w1 == SetPc(w, t, Drain(q[1..], 0))
  }

  /** Other code takes and gives up references to buffers. */
  ghost predicate Elsewhere(w: World, w1: World) {
    exists s: Sab ::
      w1 == w.(counts := w.counts + multiset{s}, external := w.external + multiset{s}) ||
      (s in w.external && w1 == w.(counts := w.counts - multiset{s}, external := w.external - multiset{s}))
  }

  ghost predicate Next(w: World, w1: World) {
    Elsewhere(w, w1) || exists t: nat, a: Action :: t < |w.threads| && Step(w, t, a, w1)
  }

  /** js_new_message_pipe: one thread has the only reference. */
  ghost predicate Initial(w: World) {
    w.queue == [] && w.pending == 0 && w.owner == -1 && w.refCount == 1 && !w.destroyed && w.counts == w.external &&
    w.posted == [] && w.received == [] && w.dropped == [] && |w.threads| >= 1 && w.threads[0] == Thread(Idle, 1) &&
    forall t :: 1 <= t < |w.threads| ==> w.threads[t] == Thread(Idle, 0)
  }

  // --- what is counted ---

  /** The references to buffers that a thread holds on behalf of a message. */
  function Held(pc: Pc): multiset<Sab> {
    match pc
    case Dup(m, i) => if i <= |m.sabs| then multiset(m.sabs[..i]) else multiset{}
    case Signal(m) => multiset(m.sabs)
    case Append(m) => multiset(m.sabs)
    case Clear(m) => multiset(m.sabs)
    case LeaveWith(m) => multiset(m.sabs)
    case Release(m, i) => if i <= |m.sabs| then multiset(m.sabs[i..]) else multiset{}
    case Drain(q, i) => if q != [] && i <= |q[0].sabs| then multiset(q[0].sabs[i..]) + QueueSabs(q[1..]) else multiset{}
    case _ => multiset{}
  }

  function QueueSabs(q: seq<Message>): multiset<Sab> {
    if q == [] then multiset{} else multiset(q[0].sabs) + QueueSabs(q[1..])
  }

  function ThreadSabs(ts: seq<Thread>): multiset<Sab> {
    if ts == [] then multiset{} else ThreadSabs(ts[..|ts| - 1]) + Held(ts[|ts| - 1].pc)
  }

  function Refs(ts: seq<Thread>): nat {
    if ts == [] then 0 else Refs(ts[..|ts| - 1]) + ts[|ts| - 1].refs
  }

  lemma {:induction false} QueueAppend(q: seq<Message>, m: Message)
    ensures QueueSabs(q + [m]) == QueueSabs(q) + multiset(m.sabs)
  {
    if q == [] {
      assert [] + [m] == [m];
    } else {
      assert (q + [m])[1..] == q[1..] + [m];
      QueueAppend(q[1..], m);
    }
  }

  /** Changing one thread. */
  lemma {:induction false} ThreadChanged(ts: seq<Thread>, t: nat, th: Thread)
    requires t < |ts|
    ensures ThreadSabs(ts[t := th]) + Held(ts[t].pc) == ThreadSabs(ts) + Held(th.pc)
    ensures Refs(ts[t := th]) + ts[t].refs == Refs(ts) + th.refs
    decreases |ts|
  {
    hide Held;
    var n := |ts| - 1;
    var us := ts[t := th];
    if t < n {
      assert us[..n] == ts[..n][t := th] && us[n] == ts[n];
      ThreadChanged(ts[..n], t, th);
      SwapSums(ThreadSabs(us[..n]), Held(ts[t].pc), ThreadSabs(ts[..n]), Held(th.pc), Held(ts[n].pc));
    } else {
      assert us[..n] == ts[..n] && us[n] == th;
      SwapSums(ThreadSabs(ts[..n]), multiset{}, ThreadSabs(ts[..n]), multiset{}, Held(th.pc) + Held(ts[n].pc));
      assert ThreadSabs(us) == ThreadSabs(ts[..n]) + Held(th.pc);
      assert ThreadSabs(ts) == ThreadSabs(ts[..n]) + Held(ts[n].pc);
    }
  }

  lemma SwapSums(a: multiset<Sab>, b: multiset<Sab>, c: multiset<Sab>, d: multiset<Sab>, e: multiset<Sab>)
    requires a + b == c + d
    ensures (a + e) + b == (c + e) + d
  {
    assert (a + e) + b == (a + b) + e;
    assert (c + e) + d == (c + d) + e;
  }

  lemma {:induction false} RefsAtLeast(ts: seq<Thread>, t: nat)
    requires t < |ts|
    ensures Refs(ts) >= ts[t].refs && Held(ts[t].pc) <= ThreadSabs(ts)
    decreases |ts|
  {
    hide Held;
    if t < |ts| - 1 {
      RefsAtLeast(ts[..|ts| - 1], t);
    }
  }

  // --- the invariant ---

  predicate WellPlaced(th: Thread) {
    (th.pc.Idle? || th.pc.Drain? || th.refs > 0) && (th.pc.Drain? ==> th.refs == 0) &&
    (th.pc.Dup? ==> th.pc.i <= |th.pc.m.sabs|) && (th.pc.Release? ==> th.pc.i <= |th.pc.m.sabs|) &&
    (th.pc.Drain? && th.pc.q != [] ==> th.pc.i <= |th.pc.q[0].sabs|) && (th.pc.Drain? && th.pc.q == [] ==> th.pc.i == 0)
  }

  /** The mutex is held by the thread that is inside. */
  predicate MutexInv(w: World) {
    -1 <= w.owner < |w.threads| && forall t :: 0 <= t < |w.threads| ==> (InMutex(w.threads[t].pc) <==> t == w.owner)
  }

  /** The wake-up bytes, as the thread inside the mutex leaves them at each point. */
  predicate WakeInv(w: World) {
    var nonempty := if w.queue == [] then 0 else 1;
    if !(0 <= w.owner < |w.threads|) then w.pending == nonempty
    else
      match w.threads[w.owner].pc
      case Append(_) => w.pending == 1
      case Clear(_) => w.pending == 1
      case _ => w.pending == nonempty
  }

  /** All references to the pipe are owned; without any, nothing is queued. */
  predicate RefInv(w: World) {
    w.refCount == Refs(w.threads) && (forall t :: 0 <= t < |w.threads| ==> WellPlaced(w.threads[t])) && (w.refCount == 0 ==> w.queue == [])
  }

  /** The reference counts of the buffers. */
  predicate SabInv(w: World) {
    w.counts == w.external + QueueSabs(w.queue) + ThreadSabs(w.threads)
  }

  /** First in, first out. */
  predicate FifoInv(w: World) {
    w.posted == w.received + w.dropped + w.queue && (w.dropped != [] ==> w.refCount == 0 && w.queue == [])
  }

  /** What holds in every state but for the wake-up bytes after the pipe is gone. */
  ghost predicate Inv(w: World) {
    MutexInv(w) && (w.refCount > 0 ==> WakeInv(w)) && RefInv(w) && SabInv(w) && FifoInv(w)
  }

  lemma InitialInv(w: World)
    requires Initial(w)
    ensures Inv(w)
  {
    OneOwner(w.threads);
  }

  lemma {:induction false} OneOwner(ts: seq<Thread>)
    requires |ts| >= 1 && ts[0] == Thread(Idle, 1) && forall t :: 1 <= t < |ts| ==> ts[t] == Thread(Idle, 0)
    ensures Refs(ts) == 1 && ThreadSabs(ts) == multiset{}
    decreases |ts|
  {
    var n := |ts| - 1;
    if n > 0 {
      OneOwner(ts[..n]);
    } else {
      assert ts[..0] == [];
    }
  }

  // --- every step keeps the invariant ---

  /** Thread t has moved on to pc, and everything else of the threads is as before. */
  predicate Moves(w: World, t: nat, pc: Pc, w1: World) {
    t < |w.threads| && w1.threads == w.threads[t := w.threads[t].(pc := pc)] && w1.refCount == w.refCount
  }

  lemma RefsKept(w: World, t: nat, pc: Pc, w1: World)
    requires RefInv(w) && Moves(w, t, pc, w1)
    requires WellPlaced(w.threads[t].(pc := pc)) && (w1.refCount == 0 ==> w1.queue == [])
    ensures RefInv(w1)
  {
    ThreadChanged(w.threads, t, w.threads[t].(pc := pc));
    hide Held, ThreadSabs, Refs, WellPlaced;
  }

  lemma MutexKept(w: World, t: nat, pc: Pc, w1: World)
    requires MutexInv(w) && Moves(w, t, pc, w1)
    requires if InMutex(pc) then w1.owner == t && (InMutex(w.threads[t].pc) || w.owner == -1)
      else w1.owner == if InMutex(w.threads[t].pc) then -1 else w.owner
    ensures MutexInv(w1)
  {
    hide InMutex;
    assert w.threads[t].pc == w.threads[t].pc;
    assert forall u :: 0 <= u < |w1.threads| && u != t ==> w1.threads[u] == w.threads[u];
  }

  lemma SabsKept(w: World, t: nat, pc: Pc, w1: World)
    requires SabInv(w) && Moves(w, t, pc, w1)
    requires w1.counts + w.external + QueueSabs(w.queue) + Held(w.threads[t].pc) == w.counts + w1.external + QueueSabs(w1.queue) + Held(pc)
    ensures SabInv(w1)
  {
    ThreadChanged(w.threads, t, w.threads[t].(pc := pc));
    hide Held, ThreadSabs, Refs, QueueSabs;
    Balance(w.counts, w.external, QueueSabs(w.queue), ThreadSabs(w.threads), Held(w.threads[t].pc),
            w1.counts, w1.external, QueueSabs(w1.queue), ThreadSabs(w1.threads), Held(pc));
  }

  /** What is added on one side of the account is added on the other. */
  lemma Balance(c: multiset<Sab>, e: multiset<Sab>, q: multiset<Sab>, t: multiset<Sab>, h: multiset<Sab>,
      c1: multiset<Sab>, e1: multiset<Sab>, q1: multiset<Sab>, t1: multiset<Sab>, h1: multiset<Sab>)
    requires c == e + q + t && t1 + h == t + h1 && c1 + e + q + h == c + e1 + q1 + h1
    ensures c1 == e1 + q1 + t1
  {
    forall s: Sab
      ensures c1[s] == (e1 + q1 + t1)[s]
    {
      assert (t1 + h)[s] == (t + h1)[s];
      assert (c1 + e + q + h)[s] == (c + e1 + q1 + h1)[s];
    }
  }

  /** Steps outside the mutex do not touch the wake-up bytes. */
  lemma WakeKept(w: World, t: nat, pc: Pc, w1: World)
    requires MutexInv(w) && WakeInv(w) && Moves(w, t, pc, w1) && !InMutex(w.threads[t].pc) && !InMutex(pc)
    requires w1.owner == w.owner && w1.pending == w.pending && w1.queue == w.queue
    ensures WakeInv(w1)
  {
  }

  lemma OwnedRefs(w: World, t: nat)
    requires Inv(w) && t < |w.threads|
    ensures w.refCount >= w.threads[t].refs && (InMutex(w.threads[t].pc) ==> w.refCount > 0 && w.owner == t && WakeInv(w))
    ensures WellPlaced(w.threads[t])
  {
    RefsAtLeast(w.threads, t);
    hide ThreadSabs, Refs, Held, SabInv, FifoInv, WakeInv;
  }

  /** Steps that only concern the thread and the counts of buffers. */
  lemma PrivateStep(w: World, t: nat, pc: Pc, w1: World)
    requires Inv(w) && Moves(w, t, pc, w1) && !InMutex(w.threads[t].pc) && !InMutex(pc) && WellPlaced(w.threads[t].(pc := pc))
    requires w1 == w.(threads := w1.threads, counts := w1.counts, destroyed := w1.destroyed)
    requires w1.counts + Held(w.threads[t].pc) == w.counts + Held(pc)
    ensures Inv(w1)
  {
    MutexKept(w, t, pc, w1);
    RefsKept(w, t, pc, w1);
    AddBoth(w1.counts, Held(w.threads[t].pc), w.counts, Held(pc), w.external, QueueSabs(w.queue));
    SabsKept(w, t, pc, w1);
    if w.refCount > 0 { WakeKept(w, t, pc, w1); }
    hide MutexInv, RefInv, SabInv, WakeInv, Held, QueueSabs;
  }

  lemma AddBoth(a: multiset<Sab>, b: multiset<Sab>, c: multiset<Sab>, d: multiset<Sab>, e: multiset<Sab>, q: multiset<Sab>)
    requires a + b == c + d
    ensures a + e + q + b == c + e + q + d
  {
    forall s: Sab
      ensures (a + e + q + b)[s] == (c + e + q + d)[s]
    {
      assert (a + b)[s] == (c + d)[s];
    }
  }

  /** Steps of the thread inside the mutex, or that enters or leaves it; the counts of buffers
      do not change. */
  lemma MutexStep(w: World, t: nat, pc: Pc, w1: World)
    requires Inv(w) && Moves(w, t, pc, w1) && WellPlaced(w.threads[t].(pc := pc)) && w.refCount > 0
    requires if InMutex(pc) then w1.owner == t && (InMutex(w.threads[t].pc) || w.owner == -1)
      else w1.owner == if InMutex(w.threads[t].pc) then -1 else w.owner
    requires w1.counts == w.counts && w1.external == w.external
    requires QueueSabs(w.queue) + Held(w.threads[t].pc) == QueueSabs(w1.queue) + Held(pc)
    requires WakeInv(w1) && FifoInv(w1)
    ensures Inv(w1)
  {
    MutexKept(w, t, pc, w1);
    RefsKept(w, t, pc, w1);
    AddBoth(QueueSabs(w.queue), Held(w.threads[t].pc), QueueSabs(w1.queue), Held(pc), w.counts, w.external);
    Rearranged(w.counts, w.external, QueueSabs(w.queue), Held(w.threads[t].pc), QueueSabs(w1.queue), Held(pc));
    SabsKept(w, t, pc, w1);
    hide MutexInv, RefInv, SabInv, WakeInv, FifoInv, Held, QueueSabs;
  }

  lemma Rearranged(c: multiset<Sab>, e: multiset<Sab>, q: multiset<Sab>, h: multiset<Sab>, q1: multiset<Sab>, h1: multiset<Sab>)
    requires q + h == q1 + h1
    ensures c + e + q + h == c + e + q1 + h1
  {
    assert c + e + q + h == c + e + (q + h) && c + e + q1 + h1 == c + e + (q1 + h1);
  }

  lemma PostStep(w: World, t: nat, m: Message, w1: World)
    requires Inv(w) && t < |w.threads| && Step(w, t, Post(m), w1)
    ensures Inv(w1)
  {
    hide Inv;
    assert m.sabs[..0] == [];
    OwnedRefs(w, t);
    PrivateStep(w, t, Dup(m, 0), w1);
  }

  lemma ReceiveStep(w: World, t: nat, w1: World)
    requires Inv(w) && t < |w.threads| && Step(w, t, Receive, w1)
    ensures Inv(w1)
  {
    OwnedRefs(w, t);
    hide MutexInv, RefInv, SabInv;
    MutexStep(w, t, Test, w1);
  }

  lemma DupStep(w: World, t: nat, m: Message, i: nat, w1: World)
    requires Inv(w) && t < |w.threads| && w.threads[t].pc == Dup(m, i) && Continues(w, t, Dup(m, i), w1)
    ensures Inv(w1)
  {
    OwnedRefs(w, t);
    hide MutexInv, RefInv, SabInv;
    if i < |m.sabs| {
      assert m.sabs[..i + 1] == m.sabs[..i] + [m.sabs[i]];
      PrivateStep(w, t, Dup(m, i + 1), w1);
    } else {
      assert m.sabs[..i] == m.sabs;
      MutexStep(w, t, Signal(m), w1);
    }
  }

  lemma SignalStep(w: World, t: nat, m: Message, w1: World)
    requires Inv(w) && t < |w.threads| && w.threads[t].pc == Signal(m) && Continues(w, t, Signal(m), w1)
    ensures Inv(w1)
  {
    OwnedRefs(w, t);
    hide MutexInv, RefInv, SabInv;
    MutexStep(w, t, Append(m), w1);
  }

  lemma AppendStep(w: World, t: nat, m: Message, w1: World)
    requires Inv(w) && t < |w.threads| && w.threads[t].pc == Append(m) && Continues(w, t, Append(m), w1)
    ensures Inv(w1)
  {
    OwnedRefs(w, t);
    QueueAppend(w.queue, m);
    hide MutexInv, RefInv, SabInv, QueueSabs;
    assert w.received + w.dropped + w.queue + [m] == w.received + w.dropped + (w.queue + [m]);
    MutexStep(w, t, Leave, w1);
  }

  lemma LeaveStep(w: World, t: nat, w1: World)
    requires Inv(w) && t < |w.threads|
    requires (w.threads[t].pc == Leave || w.threads[t].pc.LeaveWith?) && Continues(w, t, w.threads[t].pc, w1)
    ensures Inv(w1)
  {
    OwnedRefs(w, t);
    hide MutexInv, RefInv, SabInv;
    if w.threads[t].pc == Leave {
      MutexStep(w, t, Idle, w1);
    } else {
      var m := w.threads[t].pc.m;
      assert m.sabs[0..] == m.sabs;
      MutexStep(w, t, Release(m, 0), w1);
    }
  }

  lemma TestStep(w: World, t: nat, w1: World)
    requires Inv(w) && t < |w.threads| && w.threads[t].pc == Test && Continues(w, t, Test, w1)
    ensures Inv(w1)
  {
    OwnedRefs(w, t);
    hide MutexInv, RefInv, SabInv;
    if w.queue == [] {
      MutexStep(w, t, Leave, w1);
    } else {
      TakeStep(w, t, w1);
    }
  }

  lemma TakeStep(w: World, t: nat, w1: World)
    requires Inv(w) && t < |w.threads| && w.threads[t].pc == Test && w.queue != [] && Continues(w, t, Test, w1)
    ensures Inv(w1)
  {
    OwnedRefs(w, t);
    TakenOut(w.posted, w.received, w.queue);
    QueueFirst(w.queue);
    hide MutexInv, RefInv, SabInv, QueueSabs;
    MutexStep(w, t, Clear(w.queue[0]), w1);
  }

  lemma QueueFirst(q: seq<Message>)
    requires q != []
    ensures QueueSabs(q) + multiset{} == QueueSabs(q[1..]) + multiset(q[0].sabs)
  {
  }

  lemma TakenOut(posted: seq<Message>, received: seq<Message>, queue: seq<Message>)
    requires queue != [] && posted == received + [] + queue
    ensures posted == received + [queue[0]] + [] + queue[1..]
  {
  }

  lemma ClearStep(w: World, t: nat, m: Message, w1: World)
    requires Inv(w) && t < |w.threads| && w.threads[t].pc == Clear(m) && Continues(w, t, Clear(m), w1)
    ensures Inv(w1)
  {
    OwnedRefs(w, t);
    hide MutexInv, RefInv, SabInv;
    MutexStep(w, t, LeaveWith(m), w1);
  }

  lemma ReleaseStep(w: World, t: nat, m: Message, i: nat, w1: World)
    requires Inv(w) && t < |w.threads| && w.threads[t].pc == Release(m, i) && Continues(w, t, Release(m, i), w1)
    ensures Inv(w1)
  {
    OwnedRefs(w, t);
    hide Inv;
    if i < |m.sabs| {
      ReleaseOne(w, t, m, i, w1);
    } else {
      ReleaseDone(w, t, m, i, w1);
    }
  }

  lemma ReleaseOne(w: World, t: nat, m: Message, i: nat, w1: World)
    requires Inv(w) && t < |w.threads| && w.threads[t].pc == Release(m, i) && i < |m.sabs| && WellPlaced(w.threads[t])
    requires w.counts[m.sabs[i]] > 0 && w1 == SetPc(w, t, Release(m, i + 1)).(counts := w.counts - multiset{m.sabs[i]})
    ensures Inv(w1)
  {
    ReleaseHeld(m, i);
    hide Inv, Held;
    OneLess(w.counts, m.sabs[i], Held(Release(m, i + 1)));
    PrivateStep(w, t, Release(m, i + 1), w1);
  }

  lemma ReleaseDone(w: World, t: nat, m: Message, i: nat, w1: World)
    requires Inv(w) && t < |w.threads| && w.threads[t].pc == Release(m, i) && i == |m.sabs| && WellPlaced(w.threads[t])
    requires w1 == SetPc(w, t, Idle)
    ensures Inv(w1)
  {
    ReleaseHeld(m, i);
    hide Inv, Held;
    PrivateStep(w, t, Idle, w1);
  }

  lemma DrainStep(w: World, t: nat, q: seq<Message>, i: nat, w1: World)
    requires Inv(w) && t < |w.threads| && w.threads[t].pc == Drain(q, i) && Continues(w, t, Drain(q, i), w1)
    ensures Inv(w1)
  {
    OwnedRefs(w, t);
    hide Inv;
    if q == [] {
      DrainDone(w, t, w1);
    } else if i < |q[0].sabs| {
      DrainOne(w, t, q, i, w1);
    } else {
      DrainMessage(w, t, q, i, w1);
    }
  }

  lemma DrainDone(w: World, t: nat, w1: World)
    requires Inv(w) && t < |w.threads| && w.threads[t].pc == Drain([], 0) && w1 == SetPc(w, t, Idle).(destroyed := true)
    ensures Inv(w1)
  {
    assert Held(Drain([], 0)) == Held(Idle);
    hide Inv, Held;
    PrivateStep(w, t, Idle, w1);
  }

  lemma DrainOne(w: World, t: nat, q: seq<Message>, i: nat, w1: World)
    requires Inv(w) && t < |w.threads| && w.threads[t].pc == Drain(q, i) && q != [] && i < |q[0].sabs| && WellPlaced(w.threads[t])
    requires w.counts[q[0].sabs[i]] > 0 && w1 == SetPc(w, t, Drain(q, i + 1)).(counts := w.counts - multiset{q[0].sabs[i]})
    ensures Inv(w1)
  {
    DrainHeldAt(q, i);
    DrainHeldAt(q, i + 1);
    SabsTail(q[0].sabs, i);
    hide Inv, Held, QueueSabs;
    MoveOne(w.counts, q[0].sabs[i], multiset(q[0].sabs[i + 1..]), QueueSabs(q[1..]));
    PrivateStep(w, t, Drain(q, i + 1), w1);
  }

  lemma DrainMessage(w: World, t: nat, q: seq<Message>, i: nat, w1: World)
    requires Inv(w) && t < |w.threads| && w.threads[t].pc == Drain(q, i) && q != [] && i == |q[0].sabs| && WellPlaced(w.threads[t])
    requires w1 == SetPc(w, t, Drain(q[1..], 0))
    ensures Inv(w1)
  {
    DrainHeldAt(q, i);
    DrainHeld(q[1..]);
    assert multiset(q[0].sabs[i..]) == multiset{};
    hide Inv, Held, QueueSabs;
    PrivateStep(w, t, Drain(q[1..], 0), w1);
  }

  lemma DrainHeldAt(q: seq<Message>, i: nat)
    requires q != [] && i <= |q[0].sabs|
    ensures Held(Drain(q, i)) == multiset(q[0].sabs[i..]) + QueueSabs(q[1..])
  {
  }

  lemma SabsTail(s: seq<Sab>, i: nat)
    requires i < |s|
    ensures multiset(s[i..]) == multiset{s[i]} + multiset(s[i + 1..])
  {
    assert s[i..] == [s[i]] + s[i + 1..];
  }

  lemma MoveOne(c: multiset<Sab>, s: Sab, h: multiset<Sab>, q: multiset<Sab>)
    requires c[s] > 0
    ensures (c - multiset{s}) + ((multiset{s} + h) + q) == c + (h + q)
  {
  }

  lemma ReleaseHeld(m: Message, i: nat)
    requires i <= |m.sabs|
    ensures i < |m.sabs| ==> Held(Release(m, i)) == multiset{m.sabs[i]} + Held(Release(m, i + 1))
    ensures i == |m.sabs| ==> Held(Release(m, i)) == Held(Idle)
  {
    ReleaseHeldAt(m, i);
    assert Held(Idle) == multiset{};
    if i < |m.sabs| {
      ReleaseHeldAt(m, i + 1);
      hide Held;
      SabsTail(m.sabs, i);
    } else {
      assert m.sabs[i..] == [];
      hide Held;
    }
  }

  lemma ReleaseHeldAt(m: Message, i: nat)
    requires i <= |m.sabs|
    ensures Held(Release(m, i)) == multiset(m.sabs[i..])
  {
  }

  lemma OneLess(c: multiset<Sab>, s: Sab, h: multiset<Sab>)
    requires c[s] > 0
    ensures (c - multiset{s}) + (multiset{s} + h) == c + h
  {
  }

  lemma DrainHeld(q: seq<Message>)
    ensures Held(Drain(q, 0)) == QueueSabs(q)
  {
    if q != [] { assert q[0].sabs[0..] == q[0].sabs; }
  }

  /** An idle thread gets or gives up references, or begins to drain the pipe. */
  lemma IdleChanged(w: World, t: nat, th: Thread, w1: World)
    requires Inv(w) && t < |w.threads| && w.threads[t].pc.Idle? && (th.pc.Idle? || th.pc.Drain?) && WellPlaced(th)
    requires w1.threads == w.threads[t := th] && w1.owner == w.owner && w1.pending == w.pending
    requires w1.refCount + w.threads[t].refs == w.refCount + th.refs && (w1.refCount > 0 ==> w1.queue == w.queue) && (w1.refCount == 0 ==> w1.queue == [])
    requires w1.counts == w.counts && w1.external == w.external && QueueSabs(w.queue) == QueueSabs(w1.queue) + Held(th.pc)
    ensures MutexInv(w1) && RefInv(w1) && SabInv(w1) && (w1.refCount > 0 && w.refCount > 0 ==> WakeInv(w1))
  {
    ThreadChanged(w.threads, t, th);
    IdleMutex(w, t, th, w1);
    IdleRefs(w, t, th, w1);
    assert Held(Idle) == multiset{};
    hide ThreadSabs, Refs, Held, QueueSabs, MutexInv, RefInv, WakeInv;
    AddBoth(QueueSabs(w.queue), multiset{}, QueueSabs(w1.queue), Held(th.pc), w.counts, w.external);
    Rearranged(w.counts, w.external, QueueSabs(w.queue), multiset{}, QueueSabs(w1.queue), Held(th.pc));
    Balance(w.counts, w.external, QueueSabs(w.queue), ThreadSabs(w.threads), multiset{},
            w1.counts, w1.external, QueueSabs(w1.queue), ThreadSabs(w1.threads), Held(th.pc));
  }

  lemma IdleMutex(w: World, t: nat, th: Thread, w1: World)
    requires MutexInv(w) && t < |w.threads| && w.threads[t].pc.Idle? && (th.pc.Idle? || th.pc.Drain?)
    requires w1.threads == w.threads[t := th] && w1.owner == w.owner && w1.pending == w.pending
    ensures MutexInv(w1) && (WakeInv(w) && w1.queue == w.queue ==> WakeInv(w1))
  {
  }

  lemma IdleRefs(w: World, t: nat, th: Thread, w1: World)
    requires RefInv(w) && t < |w.threads| && WellPlaced(th) && w1.threads == w.threads[t := th]
    requires w1.refCount + w.threads[t].refs == w.refCount + th.refs && (w1.refCount == 0 ==> w1.queue == [])
    ensures RefInv(w1)
  {
    ThreadChanged(w.threads, t, th);
    hide ThreadSabs, Refs, Held, WellPlaced;
  }

  lemma DupPipeStep(w: World, t: nat, w1: World)
    requires Inv(w) && t < |w.threads| && Step(w, t, DupPipe, w1)
    ensures Inv(w1)
  {
    OwnedRefs(w, t);
    hide MutexInv, RefInv, SabInv, WakeInv, QueueSabs;
    IdleChanged(w, t, w.threads[t].(refs := w.threads[t].refs + 1), w1);
  }

  /** As if the receiving thread took a new reference before the other one gave up its own. */
  lemma GiveStep(w: World, t: nat, u: nat, w1: World)
    requires Inv(w) && t < |w.threads| && Step(w, t, Give(u), w1)
    ensures Inv(w1)
  {
    OwnedRefs(w, t);
    OwnedRefs(w, u);
    NoSabs();
    assert Held(Idle) == multiset{};
    hide MutexInv, RefInv, SabInv, WakeInv, QueueSabs, Held;
    var tu := w.threads[u].(refs := w.threads[u].refs + 1);
    var both := w.(refCount := w.refCount + 1, threads := w.threads[u := tu]);
    IdleChanged(w, u, tu, both);
    var tt := w.threads[t].(refs := w.threads[t].refs - 1);
    assert w1.threads == both.threads[t := tt];
    IdleChanged(both, t, tt, w1);
  }

  lemma FreePipeStep(w: World, t: nat, w1: World)
    requires Inv(w) && t < |w.threads| && Step(w, t, FreePipe, w1)
    ensures Inv(w1)
  {
    OwnedRefs(w, t);
    if w.refCount > 1 {
      hide Inv;
      OneReferenceLess(w, t, w1);
    } else {
      assert w.threads[t] == Thread(Idle, 1);
      hide Inv;
      LastPipeStep(w, t, w1);
    }
  }

  /** A reference is given up, and others remain. */
  lemma OneReferenceLess(w: World, t: nat, w1: World)
    requires Inv(w) && t < |w.threads| && w.refCount > 1 && w.threads[t].pc.Idle? && w.threads[t].refs > 0
    requires w1 == w.(refCount := w.refCount - 1, threads := w.threads[t := w.threads[t].(refs := w.threads[t].refs - 1)])
    ensures Inv(w1)
  {
    NoSabs();
    assert Held(Idle) == multiset{};
    hide MutexInv, RefInv, SabInv, WakeInv, QueueSabs, Held;
    IdleChanged(w, t, w.threads[t].(refs := w.threads[t].refs - 1), w1);
  }

  /** The last reference is given up: the queue is freed. */
  lemma LastPipeStep(w: World, t: nat, w1: World)
    requires Inv(w) && t < |w.threads| && w.refCount == 1 && w.threads[t] == Thread(Idle, 1)
    requires w1 == w.(refCount := 0, threads := w.threads[t := Thread(Drain(w.queue, 0), 0)], queue := [], dropped := w.dropped + w.queue)
    ensures Inv(w1)
  {
    DrainHeld(w.queue);
    NoSabs();
    LastFifo(w.received, w.dropped, w.queue);
    hide MutexInv, RefInv, SabInv, WakeInv, QueueSabs, Held;
    IdleChanged(w, t, Thread(Drain(w.queue, 0), 0), w1);
  }

  lemma LastFifo(received: seq<Message>, dropped: seq<Message>, queue: seq<Message>)
    ensures received + dropped + queue == received + (dropped + queue) + []
  {
  }

  lemma NoSabs()
    ensures QueueSabs([]) == multiset{}
  {
  }

  lemma ElsewhereStep(w: World, w1: World)
    requires Inv(w) && Elsewhere(w, w1)
    ensures Inv(w1)
  {
    hide ThreadSabs, Refs, QueueSabs, MutexInv, WakeInv, RefInv, FifoInv;
    SameButCounts(w, w1);
  }

  lemma SameButCounts(w: World, w1: World)
    requires w1 == w.(counts := w1.counts, external := w1.external)
    ensures MutexInv(w) == MutexInv(w1) && WakeInv(w) == WakeInv(w1) && RefInv(w) == RefInv(w1) && FifoInv(w) == FifoInv(w1)
  {
    hide ThreadSabs, Refs, QueueSabs;
  }

  /** Every step of any thread keeps the invariant. */
  lemma NextKeepsInv(w: World, w1: World)
    requires Inv(w) && Next(w, w1)
    ensures Inv(w1)
  {
    hide Inv, Elsewhere;
    if Elsewhere(w, w1) {
      ElsewhereStep(w, w1);
    } else {
      var t: nat, a: Action :| t < |w.threads| && Step(w, t, a, w1);
      match a
      case Post(m) => PostStep(w, t, m, w1);
      case Receive => ReceiveStep(w, t, w1);
      case DupPipe => DupPipeStep(w, t, w1);
      case Give(u) => GiveStep(w, t, u, w1);
      case FreePipe => FreePipeStep(w, t, w1);
      case Continue => ContinueStep(w, t, w1);
    }
  }

  lemma ContinueStep(w: World, t: nat, w1: World)
    requires Inv(w) && t < |w.threads| && Continues(w, t, w.threads[t].pc, w1)
    ensures Inv(w1)
  {
    hide Inv;
    match w.threads[t].pc
    case Idle =>
    case Dup(m, i) => DupStep(w, t, m, i, w1);
    case Signal(m) => SignalStep(w, t, m, w1);
    case Append(m) => AppendStep(w, t, m, w1);
    case Leave => LeaveStep(w, t, w1);
    case Test => TestStep(w, t, w1);
    case Clear(m) => ClearStep(w, t, m, w1);
    case LeaveWith(m) => LeaveStep(w, t, w1);
    case Release(m, i) => ReleaseStep(w, t, m, i, w1);
    case Drain(q, i) => DrainStep(w, t, q, i, w1);
  }

  // --- safety over whole runs ---

  ghost predicate Run(ws: seq<World>) {
    ws != [] && Initial(ws[0]) && forall k :: 0 < k < |ws| ==> Next(ws[k - 1], ws[k])
  }

  lemma {:induction false} RunKeepsInv(ws: seq<World>, k: nat)
    requires Run(ws) && k < |ws|
    ensures Inv(ws[k])
    decreases k
  {
    hide Initial, Next, Inv;
    if k == 0 {
      InitialInv(ws[0]);
    } else {
      RunKeepsInv(ws, k - 1);
      assert Next(ws[k - 1], ws[k]);
      NextKeepsInv(ws[k - 1], ws[k]);
    }
  }

  /** Whenever the mutex is free, exactly one wake-up is pending if messages are queued, and
      none otherwise: no wake-up is lost, and none is left behind. */
  lemma WakeUpExact(ws: seq<World>, k: nat)
    requires Run(ws) && k < |ws| && ws[k].owner == -1 && ws[k].refCount > 0
    ensures ws[k].pending == if ws[k].queue == [] then 0 else 1
  {
    RunKeepsInv(ws, k);
    hide Run, ThreadSabs, Refs;
  }

  /** js_waker_clear never blocks: a thread that has to clear finds a byte. */
  lemma ClearNeverBlocks(ws: seq<World>, k: nat, t: nat)
    requires Run(ws) && k < |ws| && t < |ws[k].threads| && ws[k].threads[t].pc.Clear? && ws[k].queue == []
    ensures ws[k].pending == 1
  {
    RunKeepsInv(ws, k);
    OwnedRefs(ws[k], t);
    hide Run, ThreadSabs, Refs;
  }

  /** Messages come out in the order in which they were posted, each at most once; what was
      not received is still queued or was freed with the pipe. */
  lemma FirstInFirstOut(ws: seq<World>, k: nat)
    requires Run(ws) && k < |ws|
    ensures ws[k].received <= ws[k].posted
    ensures ws[k].posted == ws[k].received + ws[k].dropped + ws[k].queue
    ensures ws[k].refCount > 0 ==> ws[k].dropped == []
    ensures ws[k].refCount == 0 ==> ws[k].queue == []
  {
    RunKeepsInv(ws, k);
    hide Run, ThreadSabs, Refs;
  }

  /** Two threads are never inside the mutex. */
  lemma MutualExclusion(ws: seq<World>, k: nat, t: nat, u: nat)
    requires Run(ws) && k < |ws| && t < |ws[k].threads| && u < |ws[k].threads|
    requires InMutex(ws[k].threads[t].pc) && InMutex(ws[k].threads[u].pc)
    ensures t == u
  {
    RunKeepsInv(ws, k);
    hide Run, ThreadSabs, Refs;
  }

  /** The reference count of a buffer is never too low: whoever releases one finds it counted. */
  lemma ReleaseCounted(ws: seq<World>, k: nat, t: nat)
    requires Run(ws) && k < |ws| && t < |ws[k].threads|
    ensures var pc := ws[k].threads[t].pc;
      Held(pc) <= ws[k].counts &&
      (pc.Release? && pc.i < |pc.m.sabs| ==> ws[k].counts[pc.m.sabs[pc.i]] > 0) &&
      (pc.Drain? && pc.q != [] && pc.i < |pc.q[0].sabs| ==> ws[k].counts[pc.q[0].sabs[pc.i]] > 0)
  {
    RunKeepsInv(ws, k);
    HeldCounted(ws[k], t);
  }

  lemma HeldCounted(w: World, t: nat)
    requires Inv(w) && t < |w.threads|
    ensures var pc := w.threads[t].pc;
      Held(pc) <= w.counts &&
      (pc.Release? && pc.i < |pc.m.sabs| ==> w.counts[pc.m.sabs[pc.i]] > 0) &&
      (pc.Drain? && pc.q != [] && pc.i < |pc.q[0].sabs| ==> w.counts[pc.q[0].sabs[pc.i]] > 0)
  {
    RefsAtLeast(w.threads, t);
    hide ThreadSabs, Refs, QueueSabs;
    var pc := w.threads[t].pc;
    if pc.Release? && pc.i < |pc.m.sabs| {
      assert pc.m.sabs[pc.i] in pc.m.sabs[pc.i..];
      assert pc.m.sabs[pc.i] in Held(pc);
    }
    if pc.Drain? && pc.q != [] && pc.i < |pc.q[0].sabs| {
      assert pc.q[0].sabs[pc.i] in pc.q[0].sabs[pc.i..];
      assert pc.q[0].sabs[pc.i] in Held(pc);
    }
  }

  /** Once no message is queued and no thread is busy, exactly the references that messages
      contributed have been released. */
  lemma AllReleased(ws: seq<World>, k: nat)
    requires Run(ws) && k < |ws| && ws[k].queue == [] && forall t :: 0 <= t < |ws[k].threads| ==> Held(ws[k].threads[t].pc) == multiset{}
    ensures ws[k].counts == ws[k].external
  {
    RunKeepsInv(ws, k);
    NothingHeld(ws[k].threads);
    hide Run, ThreadSabs, Refs;
  }

  lemma {:induction false} NothingHeld(ts: seq<Thread>)
    requires forall t :: 0 <= t < |ts| ==> Held(ts[t].pc) == multiset{}
    ensures ThreadSabs(ts) == multiset{}
  {
    hide Held;
    if ts != [] { NothingHeld(ts[..|ts| - 1]); }
  }

  /** When the pipe has been destroyed, every posted message has been received or freed, and the
      buffers have no references but those of other code. */
  lemma DestroyedIsClean(ws: seq<World>, k: nat)
    requires Run(ws) && k < |ws| && ws[k].refCount == 0 && forall t :: 0 <= t < |ws[k].threads| ==> !ws[k].threads[t].pc.Drain?
    ensures ws[k].posted == ws[k].received + ws[k].dropped && ws[k].counts == ws[k].external
    ensures forall t :: 0 <= t < |ws[k].threads| ==> ws[k].threads[t] == Thread(Idle, 0)
  {
    RunKeepsInv(ws, k);
    forall t | 0 <= t < |ws[k].threads|
      ensures ws[k].threads[t] == Thread(Idle, 0)
    {
      RefsAtLeast(ws[k].threads, t);
    }
    assert ws[k].received + ws[k].dropped + [] == ws[k].received + ws[k].dropped;
    AllReleased(ws, k);
    hide Run, ThreadSabs, Refs;
  }

  // --- progress ---

  /** The thread inside the mutex can always go on. */
  lemma OwnerContinues(w: World, t: nat) returns (w1: World)
    requires Inv(w) && t < |w.threads| && InMutex(w.threads[t].pc)
    ensures Continues(w, t, w.threads[t].pc, w1)
  {
    OwnedRefs(w, t);
    hide MutexInv, RefInv, SabInv, FifoInv;
    match w.threads[t].pc
    case Signal(m) => w1 := SetPc(w, t, Append(m)).(pending := if w.queue == [] then w.pending + 1 else w.pending);
    case Append(m) => w1 := SetPc(w, t, Leave).(queue := w.queue + [m], posted := w.posted + [m]);
    case Leave => w1 := SetPc(w, t, Idle).(owner := -1);
    case Test =>
      w1 := if w.queue == [] then SetPc(w, t, Leave)
        else SetPc(w, t, Clear(w.queue[0])).(queue := w.queue[1..], received := w.received + [w.queue[0]]);
    case Clear(m) =>
      w1 := if w.queue == [] then SetPc(w, t, LeaveWith(m)).(pending := Cleared(w.pending)) else SetPc(w, t, LeaveWith(m));
    case LeaveWith(m) => w1 := SetPc(w, t, Release(m, 0)).(owner := -1);
  }

  lemma DupContinues(w: World, t: nat, m: Message, i: nat) returns (w1: World)
    requires t < |w.threads| && w.owner == -1 && w.threads[t].pc == Dup(m, i)
    ensures Continues(w, t, Dup(m, i), w1)
  {
    w1 := if i < |m.sabs| then SetPc(w, t, Dup(m, i + 1)).(counts := w.counts + multiset{m.sabs[i]})
      else SetPc(w, t, Signal(m)).(owner := t);
  }

  lemma ReleaseContinues(w: World, t: nat, m: Message, i: nat) returns (w1: World)
    requires t < |w.threads| && w.threads[t].pc == Release(m, i) && (i < |m.sabs| ==> w.counts[m.sabs[i]] > 0)
    ensures Continues(w, t, Release(m, i), w1)
  {
    w1 := if i < |m.sabs| then SetPc(w, t, Release(m, i + 1)).(counts := w.counts - multiset{m.sabs[i]}) else SetPc(w, t, Idle);
  }

  lemma DrainContinues(w: World, t: nat, q: seq<Message>, i: nat) returns (w1: World)
    requires t < |w.threads| && w.threads[t].pc == Drain(q, i) && (q != [] && i < |q[0].sabs| ==> w.counts[q[0].sabs[i]] > 0)
    ensures Continues(w, t, Drain(q, i), w1)
  {
    w1 := if q == [] then SetPc(w, t, Idle).(destroyed := true)
      else if i < |q[0].sabs| then SetPc(w, t, Drain(q, i + 1)).(counts := w.counts - multiset{q[0].sabs[i]})
      else SetPc(w, t, Drain(q[1..], 0));
  }

  /** With the mutex free, any busy thread can go on. */
  lemma BusyContinues(w: World, t: nat) returns (w1: World)
    requires Inv(w) && t < |w.threads| && w.owner == -1 && !w.threads[t].pc.Idle?
    ensures Continues(w, t, w.threads[t].pc, w1)
  {
    HeldCounted(w, t);
    assert !InMutex(w.threads[t].pc);
    hide Inv, Held, Continues;
    var pc := w.threads[t].pc;
    if pc.Dup? {
      w1 := DupContinues(w, t, pc.m, pc.i);
    } else if pc.Release? {
      w1 := ReleaseContinues(w, t, pc.m, pc.i);
    } else {
      w1 := DrainContinues(w, t, pc.q, pc.i);
    }
  }

  /** No deadlock: as long as a thread is busy, some thread can go on with what it does. */
  lemma NoDeadlock(ws: seq<World>, k: nat, t: nat)
    requires Run(ws) && k < |ws| && t < |ws[k].threads| && !ws[k].threads[t].pc.Idle?
    ensures exists u: nat, w1: World :: u < |ws[k].threads| && Step(ws[k], u, Continue, w1)
  {
    RunKeepsInv(ws, k);
    var w := ws[k];
    hide Run, WakeInv, RefInv, SabInv, FifoInv, Continues;
    if w.owner == -1 {
      var w1 := BusyContinues(w, t);
      assert Step(w, t, Continue, w1);
    } else {
      var w1 := OwnerContinues(w, w.owner);
      assert Step(w, w.owner, Continue, w1);
    }
  }

  // --- a run in which two threads meet ---

  lemma {:induction false} RunOne(ws: seq<World>, t: nat, a: Action, w1: World)
    requires Run(ws) && t < |ws[|ws| - 1].threads| && Step(ws[|ws| - 1], t, a, w1)
    ensures Run(ws + [w1])
  {
    hide Step, Initial;
    assert Next(ws[|ws| - 1], w1);
  }

  /** Nothing has been posted, and each of two threads has a reference. */
  function Shared(): World {
    World([], 0, -1, [Thread(Idle, 1), Thread(Idle, 1)], 2, false, multiset{}, multiset{}, [], [], [])
  }

  lemma SharedReached() returns (ws: seq<World>)
    ensures Run(ws) && ws[|ws| - 1] == Shared()
  {
    var w0 := World([], 0, -1, [Thread(Idle, 1), Thread(Idle, 0)], 1, false, multiset{}, multiset{}, [], [], []);
    var w1 := w0.(refCount := 2, threads := [Thread(Idle, 2), Thread(Idle, 0)]);
    assert Step(w0, 0, DupPipe, w1);
    assert Step(w1, 0, Give(1), Shared());
    assert Run([w0]);
    RunOne([w0], 0, DupPipe, w1);
    RunOne([w0] + [w1], 0, Give(1), Shared());
    ws := [w0] + [w1] + [Shared()];
  }

  /** The world in which the two threads are at given places. */
  function At(w: World, p: Pc, q: Pc): World {
    w.(threads := [Thread(p, 1), Thread(q, 1)])
  }

  /** Thread 0 posts a; thread 1 is posting b and waits for the mutex that thread 0 holds. */
  lemma Waiting(a: Message, b: Message) returns (ws: seq<World>)
    ensures Run(ws) && ws[|ws| - 1] == At(Both(a, b), Signal(a), Dup(b, |b.sabs|)).(owner := 0)
  {
    ws := SharedReached();
    var w := Shared();
    RunOne(ws, 0, Post(a), At(w, Dup(a, 0), Idle));
    ws := ws + [At(w, Dup(a, 0), Idle)];
    ws := CountAll(ws, At(w, Idle, Idle), 0, a);
    w := w.(counts := multiset{} + multiset(a.sabs));
    assert ws[|ws| - 1] == At(w, Dup(a, |a.sabs|), Idle);
    RunOne(ws, 0, Continue, At(w, Signal(a), Idle).(owner := 0));
    ws := ws + [At(w, Signal(a), Idle).(owner := 0)];
    RunOne(ws, 1, Post(b), At(w, Signal(a), Dup(b, 0)).(owner := 0));
    ws := ws + [At(w, Signal(a), Dup(b, 0)).(owner := 0)];
    ws := CountAll(ws, At(w, Signal(a), Idle).(owner := 0), 1, b);
    assert ws[|ws| - 1] == At(w.(counts := w.counts + multiset(b.sabs)), Signal(a), Dup(b, |b.sabs|)).(owner := 0);
  }

  /** All buffers of both messages are counted. */
  function Both(a: Message, b: Message): World {
    Shared().(counts := multiset(a.sabs) + multiset(b.sabs))
  }

  /** A thread counts the buffers of its message one by one. */
  lemma CountAll(ws0: seq<World>, w: World, t: nat, m: Message) returns (ws: seq<World>)
    requires Run(ws0) && t < |w.threads| && ws0[|ws0| - 1] == SetPc(w, t, Dup(m, 0))
    ensures Run(ws) && ws0 <= ws
    ensures ws[|ws| - 1] == SetPc(w, t, Dup(m, |m.sabs|)).(counts := w.counts + multiset(m.sabs))
  {
    assert m.sabs[..0] == [] && w.counts + multiset{} == w.counts;
    ws := CountFrom(ws0, w, t, m, 0);
    assert m.sabs[..|m.sabs|] == m.sabs;
  }

  lemma {:induction false} CountFrom(ws0: seq<World>, w: World, t: nat, m: Message, i: nat) returns (ws: seq<World>)
    requires ws0 != [] && Run(ws0) && t < |w.threads| && i <= |m.sabs|
    requires ws0[|ws0| - 1] == SetPc(w, t, Dup(m, i)).(counts := w.counts + multiset(m.sabs[..i]))
    ensures Run(ws) && ws0 <= ws
    ensures ws[|ws| - 1] == SetPc(w, t, Dup(m, |m.sabs|)).(counts := w.counts + multiset(m.sabs[..|m.sabs|]))
    decreases |m.sabs| - i
  {
    hide *;
    if i == |m.sabs| {
      ws := ws0;
    } else {
      var w1 := SetPc(w, t, Dup(m, i + 1)).(counts := w.counts + multiset(m.sabs[..i + 1]));
      CountOne(w, t, m, i, ws0[|ws0| - 1], w1);
      RunOne(ws0, t, Continue, w1);
      ws := CountFrom(ws0 + [w1], w, t, m, i + 1);
    }
  }

  lemma CountOne(w: World, t: nat, m: Message, i: nat, w0: World, w1: World)
    requires t < |w.threads| && i < |m.sabs|
    requires w0 == SetPc(w, t, Dup(m, i)).(counts := w.counts + multiset(m.sabs[..i]))
    requires w1 == SetPc(w, t, Dup(m, i + 1)).(counts := w.counts + multiset(m.sabs[..i + 1]))
    ensures t < |w0.threads| && Step(w0, t, Continue, w1)
  {
    assert m.sabs[..i + 1] == m.sabs[..i] + [m.sabs[i]];
    assert w.counts + multiset(m.sabs[..i + 1]) == w.counts + multiset(m.sabs[..i]) + multiset{m.sabs[i]};
    var th, th0 := w.threads, w0.threads;
    assert th0[t].pc == Dup(m, i);
    assert th0[t := th0[t].(pc := Dup(m, i + 1))] == th[t := th[t].(pc := Dup(m, i + 1))];
  }

  /** Thread 0 leaves the mutex, thread 1 enters it, posts b and takes out a. */
  lemma Handed(ws0: seq<World>, a: Message, b: Message) returns (ws: seq<World>)
    requires Run(ws0) && ws0[|ws0| - 1] == At(Both(a, b), Signal(a), Dup(b, |b.sabs|)).(owner := 0)
    ensures Run(ws) && ws0 <= ws
    ensures ws[|ws| - 1] == At(Both(a, b), Idle, Clear(a)).(owner := 1, pending := 1, queue := [b], posted := [a, b], received := [a])
  {
    var w, n := Both(a, b).(pending := 1), |b.sabs|;
    ws := ws0;
    RunOne(ws, 0, Continue, At(w, Append(a), Dup(b, n)).(owner := 0));
    ws := ws + [At(w, Append(a), Dup(b, n)).(owner := 0)];
    w := w.(queue := [a], posted := [a]);
    RunOne(ws, 0, Continue, At(w, Leave, Dup(b, n)).(owner := 0));
    ws := ws + [At(w, Leave, Dup(b, n)).(owner := 0)];
    RunOne(ws, 0, Continue, At(w, Idle, Dup(b, n)));
    ws := ws + [At(w, Idle, Dup(b, n))];
    RunOne(ws, 1, Continue, At(w, Idle, Signal(b)).(owner := 1));
    ws := ws + [At(w, Idle, Signal(b)).(owner := 1)];
    ws := PostAndTake(ws, a, b);
  }

  lemma PostAndTake(ws0: seq<World>, a: Message, b: Message) returns (ws: seq<World>)
    requires Run(ws0) && ws0[|ws0| - 1] == At(Both(a, b), Idle, Signal(b)).(owner := 1, pending := 1, queue := [a], posted := [a])
    ensures Run(ws) && ws0 <= ws
    ensures ws[|ws| - 1] == At(Both(a, b), Idle, Clear(a)).(owner := 1, pending := 1, queue := [b], posted := [a, b], received := [a])
  {
    var w := Both(a, b).(owner := 1, pending := 1, queue := [a], posted := [a]);
    ws := ws0;
    RunOne(ws, 1, Continue, At(w, Idle, Append(b)));
    ws := ws + [At(w, Idle, Append(b))];
    w := w.(queue := [a] + [b], posted := [a] + [b]);
    RunOne(ws, 1, Continue, At(w, Idle, Leave));
    ws := ws + [At(w, Idle, Leave)];
    RunOne(ws, 1, Continue, At(w, Idle, Idle).(owner := -1));
    ws := ws + [At(w, Idle, Idle).(owner := -1)];
    RunOne(ws, 1, Receive, At(w, Idle, Test));
    ws := ws + [At(w, Idle, Test)];
    assert w.queue[0] == a && w.queue[1..] == [b];
    w := w.(queue := [b], received := [] + [a]);
    RunOne(ws, 1, Continue, At(w, Idle, Clear(a)));
    ws := ws + [At(w, Idle, Clear(a))];
  }

  /** The theorems above are about threads that do meet: for any two messages there is a run in
      which thread 0 holds the mutex while thread 1 waits for it, in which thread 1 holds it later,
      and in which thread 1 takes out what thread 0 has posted. */
  lemma ThreadsMeet(a: Message, b: Message)
    ensures exists ws: seq<World>, i: nat, k: nat ::
      (Run(ws) && i < k < |ws| && |ws[i].threads| == 2 && |ws[k].threads| == 2 &&
       ws[i].owner == 0 && ws[i].threads[0].pc == Signal(a) && ws[i].threads[1].pc == Dup(b, |b.sabs|) &&
       ws[k].owner == 1 && ws[k].threads[1].pc == Clear(a) && ws[k].posted == [a, b] && ws[k].received == [a])
  {
    var ws0 := Waiting(a, b);
    var ws := Handed(ws0, a, b);
    var i, k := |ws0| - 1, |ws| - 1;
    assert ws[i] == ws0[i];
    assert i != k;
    assert Run(ws) && i < k < |ws|;
    assert ws[i].owner == 0 && ws[k].owner == 1;
  }
}
