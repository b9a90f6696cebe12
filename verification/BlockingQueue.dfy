/** The bounded blocking queue of chap-26/blocking_io_threadpool_server.c as a
    transition system: any number of producers (the loop of main) and consumers
    (thread_run), one program counter each, one mutex, two condition variables
    woken by signal, and spurious wakeups.  pthread_cond_wait releases the mutex
    and blocks in one step, and a woken thread must take the mutex again before it
    returns; pthread_cond_signal unblocks one waiting thread if there is one
    (IEEE Std 1003.1-2017, System Interfaces, section 3). */
module BlockingQueue {
  import opened Common

  /** The part of blocking_queue that the mutex protects. */
  datatype Ring = Ring(size: nat, fd: seq<int>, front: nat, rear: nat, used: nat)

  type Tid = nat

  /** Where a thread stands; each step of lines 36-52 and 58-76 is one state. */
  datatype PC =
    | PIdle | PLock(fd: int) | PTest(fd: int) | PWait(fd: int) | PStore(fd: int) | PAdvance(fd: int)
    | PCount(fd: int) | PSignal | PUnlock
    | CLock | CTest | CWait | CLoad | CAdvance(fd: int) | CCount(fd: int)
    | CSignal(fd: int) | CUnlock(fd: int) | CServe(fd: int)

  /** `accepted`, `pushed` and `popped` record the descriptors accepted, inserted and
      removed so far. */
  datatype State = State(
    ring: Ring, owner: Option<Tid>, pc: seq<PC>,
    waitFree: set<Tid>, wokenFree: set<Tid>, waitItem: set<Tid>, wokenItem: set<Tid>,
    accepted: seq<int>, pushed: seq<int>, popped: seq<(Tid, int)>)

  /** Go is the next step of thread t inside push or pop; at a signal, w is the
      waiter it wakes.  Accept and Done are accept() and the end of
      connection_loop(). */
  datatype Action = Accept(t: Tid, fd: int) | Go(t: Tid, w: Tid) | Spurious(t: Tid) | Done(t: Tid)

  function Wrap(i: nat, size: nat): nat { if i + 1 == size then 0 else i + 1 }

  predicate Enabled(s: State, a: Action) {
    && a.t < |s.pc|
    && match a
       case Accept(t, _) => s.pc[t].PIdle?
       case Done(t) => s.pc[t].CServe?
       case Spurious(t) => t in s.waitFree || t in s.waitItem
       case Go(t, w) =>
         match s.pc[t]
         case PLock(_) => s.owner.None?
         case CLock => s.owner.None?
         case PWait(_) => t in s.wokenFree && s.owner.None?
         case CWait => t in s.wokenItem && s.owner.None?
         case PSignal => s.waitItem == {} || w in s.waitItem
         case CSignal(_) => s.waitFree == {} || w in s.waitFree
         case PIdle => false
         case CServe(_) => false
         case _ => true
  }

  function At(s: State, t: Tid, p: PC): State
    requires t < |s.pc|
  {
    s.(pc := s.pc[t := p])
  }

  function Store(r: Ring, fd: int): Ring { if r.rear < |r.fd| then r.(fd := r.fd[r.rear := fd]) else r }
  function Load(r: Ring): int { if r.front < |r.fd| then r.fd[r.front] else 0 }

  function GoProducer(s: State, t: Tid, w: Tid): State
    requires t < |s.pc|
  {
    match s.pc[t]
    case PLock(fd) => At(s, t, PTest(fd)).(owner := Some(t))
    case PTest(fd) =>
      if s.ring.used == s.ring.size then
        At(s, t, PWait(fd)).(owner := None, waitFree := s.waitFree + {t}, wokenFree := s.wokenFree - {t})
      else At(s, t, PStore(fd))
    case PWait(fd) => At(s, t, PTest(fd)).(owner := Some(t))
    case PStore(fd) => At(s, t, PAdvance(fd)).(ring := Store(s.ring, fd))
    case PAdvance(fd) => At(s, t, PCount(fd)).(ring := s.ring.(rear := Wrap(s.ring.rear, s.ring.size)))
    case PCount(fd) =>
      At(s, t, PSignal).(ring := s.ring.(used := s.ring.used + 1), wokenFree := s.wokenFree - {t},
                         pushed := s.pushed + [fd])
    case PSignal =>
      if s.waitItem == {} then At(s, t, PUnlock)
      else At(s, t, PUnlock).(waitItem := s.waitItem - {w}, wokenItem := s.wokenItem + {w})
    case PUnlock => At(s, t, PIdle).(owner := None)
    case _ => s
  }

  function GoConsumer(s: State, t: Tid, w: Tid): State
    requires t < |s.pc|
  {
    match s.pc[t]
    case CLock => At(s, t, CTest).(owner := Some(t))
    case CTest =>
      if s.ring.used == 0 then
        At(s, t, CWait).(owner := None, waitItem := s.waitItem + {t}, wokenItem := s.wokenItem - {t})
      else At(s, t, CLoad)
    case CWait => At(s, t, CTest).(owner := Some(t))
    case CLoad => At(s, t, CAdvance(Load(s.ring)))
    case CAdvance(fd) => At(s, t, CCount(fd)).(ring := s.ring.(front := Wrap(s.ring.front, s.ring.size)))
    case CCount(fd) =>
      At(s, t, CSignal(fd)).(ring := s.ring.(used := if s.ring.used > 0 then s.ring.used - 1 else 0),
                             wokenItem := s.wokenItem - {t}, popped := s.popped + [(t, fd)])
    case CSignal(fd) =>
      if s.waitFree == {} then At(s, t, CUnlock(fd))
      else At(s, t, CUnlock(fd)).(waitFree := s.waitFree - {w}, wokenFree := s.wokenFree + {w})
    case CUnlock(fd) => At(s, t, CServe(fd)).(owner := None)
    case _ => s
  }

  predicate IsProducer(p: PC) {
    p.PIdle? || p.PLock? || p.PTest? || p.PWait? || p.PStore? || p.PAdvance? || p.PCount? || p.PSignal? || p.PUnlock?
  }

  function Apply(s: State, a: Action): State
    requires Enabled(s, a)
  {
    match a
    case Accept(t, fd) => At(s, t, PLock(fd)).(accepted := s.accepted + [fd])
    case Done(t) => At(s, t, CLock)
    case Spurious(t) =>
      if t in s.waitFree then s.(waitFree := s.waitFree - {t}, wokenFree := s.wokenFree + {t})
      else s.(waitItem := s.waitItem - {t}, wokenItem := s.wokenItem + {t})
    case Go(t, w) => if IsProducer(s.pc[t]) then GoProducer(s, t, w) else GoConsumer(s, t, w)
  }

  /** blocking_queue_init, and threads that have not called the queue yet. */
  predicate Init(s: State, size: nat) {
    && s.ring == Ring(size, seq(size, _ => 0), 0, 0, 0)
    && s.owner == None && s.accepted == [] && s.pushed == [] && s.popped == []
    && s.waitFree == {} && s.wokenFree == {} && s.waitItem == {} && s.wokenItem == {}
    && forall t :: 0 <= t < |s.pc| ==> s.pc[t] == PIdle || s.pc[t] == CLock
  }

  // ---- the invariant, clause by clause ----

  predicate Critical(p: PC) {
    !(p.PIdle? || p.PLock? || p.PWait? || p.CLock? || p.CWait? || p.CServe?)
  }

  /** The lock holder is the one thread between lock and unlock. */
  predicate Mutex(s: State) {
    && (s.owner.Some? ==> s.owner.value < |s.pc|)
    && forall t :: 0 <= t < |s.pc| ==> (Critical(s.pc[t]) <==> s.owner == Some(t))
  }

  /** Between the return of a wait and the count that uses it up. */
  predicate PushPending(p: PC) { p.PWait? || p.PTest? || p.PStore? || p.PAdvance? || p.PCount? }
  predicate PopPending(p: PC) { p.CWait? || p.CTest? || p.CLoad? || p.CAdvance? || p.CCount? }

  predicate WaitsFree(s: State) {
    && s.waitFree !! s.wokenFree
    && (forall t :: t in s.waitFree ==> t < |s.pc| && s.pc[t].PWait?)
    && (forall t :: t in s.wokenFree ==> t < |s.pc| && PushPending(s.pc[t]))
    && (forall t :: 0 <= t < |s.pc| && s.pc[t].PWait? ==> t in s.waitFree || t in s.wokenFree)
  }

  predicate WaitsItem(s: State) {
    && s.waitItem !! s.wokenItem
    && (forall t :: t in s.waitItem ==> t < |s.pc| && s.pc[t].CWait?)
    && (forall t :: t in s.wokenItem ==> t < |s.pc| && PopPending(s.pc[t]))
    && (forall t :: 0 <= t < |s.pc| && s.pc[t].CWait? ==> t in s.waitItem || t in s.wokenItem)
  }

  function Holder(s: State): PC
    requires Mutex(s)
  {
    if s.owner.Some? then s.pc[s.owner.value] else PIdle
  }

  /** No lost wakeup: while a consumer waits, every queued item is matched by a
      woken consumer, or by the signal the lock holder is about to give; and the
      dual for free slots and producers. */
  predicate NoLostWakeup(s: State)
    requires Mutex(s)
  {
    ItemsCovered(s, Holder(s)) && RoomCovered(s, Holder(s))
  }

  predicate ItemsCovered(s: State, p: PC) {
    s.waitItem != {} ==> s.ring.used <= |s.wokenItem| + (if p.PSignal? then 1 else 0)
  }

  predicate RoomCovered(s: State, p: PC) {
    s.waitFree != {} ==> s.ring.size - s.ring.used <= |s.wokenFree| + (if p.CSignal? then 1 else 0)
  }

  function Index(front: nat, k: nat, size: nat): nat {
    if front + k < size then front + k else front + k - size
  }

  /** Index is addition modulo size. */
  lemma IndexIsMod(front: nat, k: nat, size: nat)
    requires front < size && k <= size
    ensures Index(front, k, size) == (front + k) % size
  {
    if front + k < size {
      ModUnique(front + k, size, 0, front + k);
    } else {
      ModUnique(front + k, size, 1, front + k - size);
    }
  }

  /** n entries of the ring from front on. */
  function Slots(fd: seq<int>, front: nat, n: nat): (q: seq<int>)
    requires n <= |fd| && (front < |fd| || (front == 0 && |fd| == 0))
    ensures |q| == n
  {
    seq(n, k requires 0 <= k < n => fd[Index(front, k, |fd|)])
  }

  predicate InBounds(r: Ring) {
    && |r.fd| == r.size && r.used <= r.size
    && (r.size == 0 ==> r.front == 0 && r.rear == 0)
    && (r.size > 0 ==> r.front < r.size && r.rear < r.size)
  }

  /** How far the lock holder has come with the ring. */
  predicate RingPhase(r: Ring, p: PC)
    requires InBounds(r)
  {
    match p
    case PStore(_) => r.used < r.size && r.rear == Index(r.front, r.used, r.size)
    case PAdvance(fd) => r.used < r.size && r.rear == Index(r.front, r.used, r.size) && r.fd[r.rear] == fd
    case PCount(fd) =>
      r.used < r.size && r.rear == Index(r.front, r.used + 1, r.size) && r.fd[Index(r.front, r.used, r.size)] == fd
    case CLoad => r.used > 0 && r.rear == Index(r.front, r.used, r.size)
    case CAdvance(fd) => r.used > 0 && r.rear == Index(r.front, r.used, r.size) && r.fd[r.front] == fd
    case CCount(fd) => r.used > 0 && r.rear == Index(r.front, r.used - 1, r.size)
    case _ => r.rear == Index(r.front, r.used, r.size)
  }

  /** The queue that the ring stands for, also in the middle of push and pop. */
  function Queue(r: Ring, p: PC): (q: seq<int>)
    requires InBounds(r) && RingPhase(r, p)
    ensures |q| == r.used
  {
    if p.CCount? then [p.fd] + Slots(r.fd, r.front, r.used - 1) else Slots(r.fd, r.front, r.used)
  }

  function Fds(popped: seq<(Tid, int)>): (q: seq<int>)
    ensures |q| == |popped|
  {
    seq(|popped|, k requires 0 <= k < |popped| => popped[k].1)
  }

  predicate Fifo(s: State)
    requires Mutex(s)
  {
    InBounds(s.ring) && RingPhase(s.ring, Holder(s)) && s.pushed == Fds(s.popped) + Queue(s.ring, Holder(s))
  }

  /** The latest descriptor that thread t took. */
  function Latest(popped: seq<(Tid, int)>, t: Tid): Option<int> {
    if popped == [] then None
    else if popped[|popped| - 1].0 == t then Some(popped[|popped| - 1].1)
    else Latest(popped[..|popped| - 1], t)
  }

  predicate Serving(s: State) {
    forall t :: 0 <= t < |s.pc| && (s.pc[t].CSignal? || s.pc[t].CUnlock? || s.pc[t].CServe?) ==>
      Latest(s.popped, t) == Some(s.pc[t].fd)
  }

  /** Whether a producer has accepted fd and not yet counted it in. */
  function InHand(p: PC, fd: int): nat {
    if (p.PLock? || p.PTest? || p.PWait? || p.PStore? || p.PAdvance? || p.PCount?) && p.fd == fd then 1 else 0
  }

  /** How many producers hold fd. */
  function Held(pc: seq<PC>, fd: int): nat {
    if pc == [] then 0 else Held(pc[..|pc| - 1], fd) + InHand(pc[|pc| - 1], fd)
  }

  function Times(q: seq<int>, fd: int): nat { multiset(q)[fd] }

  /** Every descriptor has been accepted as often as it has been pushed and is in some
      producer's hand. */
  ghost predicate Accounted(s: State) {
    forall fd :: Times(s.accepted, fd) == Times(s.pushed, fd) + Held(s.pc, fd)
  }

  ghost predicate Inv(s: State) {
    Mutex(s) && WaitsFree(s) && WaitsItem(s) && NoLostWakeup(s) && Fifo(s) && Serving(s) && Accounted(s)
  }

  // ---- every step keeps every clause ----

  lemma InitInv(s: State, size: nat)
    requires Init(s, size)
    ensures Inv(s)
  {
    forall fd ensures Held(s.pc, fd) == 0 { IdleHeld(s.pc, fd); }
  }

  lemma {:induction false} IdleHeld(pc: seq<PC>, fd: int)
    requires forall t :: 0 <= t < |pc| ==> pc[t] == PIdle || pc[t] == CLock
    ensures Held(pc, fd) == 0
  {
    if pc != [] { IdleHeld(pc[..|pc| - 1], fd); }
  }

  lemma StepMutex(s: State, a: Action)
    requires Mutex(s) && Enabled(s, a)
    ensures Mutex(Apply(s, a))
  {
  }

  lemma StepWaitsFree(s: State, a: Action)
    requires WaitsFree(s) && Enabled(s, a)
    ensures WaitsFree(Apply(s, a))
  {
  }

  lemma StepWaitsItem(s: State, a: Action)
    requires WaitsItem(s) && Enabled(s, a)
    ensures WaitsItem(Apply(s, a))
  {
    if a.Go? {
      if IsProducer(s.pc[a.t]) { ProducerWaitsItem(s, a.t, a.w); } else { ConsumerWaitsItem(s, a.t, a.w); }
    }
  }

  lemma ProducerWaitsItem(s: State, t: Tid, w: Tid)
    requires WaitsItem(s) && Enabled(s, Go(t, w)) && IsProducer(s.pc[t])
    ensures WaitsItem(GoProducer(s, t, w))
  {
  }

  lemma ConsumerWaitsItem(s: State, t: Tid, w: Tid)
    requires WaitsItem(s) && Enabled(s, Go(t, w)) && !IsProducer(s.pc[t])
    ensures WaitsItem(GoConsumer(s, t, w))
  {
  }

  /** What a thread does with the lock in hand. */
  function Doing(p: PC): PC { if Critical(p) then p else PIdle }

  /** Only the thread that steps changes what the lock holder is doing. */
  lemma StepHolder(s: State, a: Action)
    requires Mutex(s) && Enabled(s, a)
    ensures Mutex(Apply(s, a))
    ensures a.Go? ==> Holder(s) == Doing(s.pc[a.t])
    ensures Holder(Apply(s, a)) == if a.Go? then Doing(Apply(s, a).pc[a.t]) else Holder(s)
  {
    StepMutex(s, a);
    assert Critical(s.pc[a.t]) <==> s.owner == Some(a.t);
  }

  lemma StepNoLostWakeup(s: State, a: Action)
    requires Mutex(s) && WaitsFree(s) && WaitsItem(s) && NoLostWakeup(s) && Fifo(s) && Enabled(s, a)
    ensures Mutex(Apply(s, a)) && NoLostWakeup(Apply(s, a))
  {
    StepHolder(s, a);
    if a.Go? {
      if IsProducer(s.pc[a.t]) {
        ProducerSignals(s, a.t, a.w);
      } else {
        ConsumerCoversItems(s, a.t, a.w);
        ConsumerCoversRoom(s, a.t, a.w);
      }
    } else {
      OutsideCovers(s, a, Holder(s));
    }
  }

  lemma OutsideCovers(s: State, a: Action, p: PC)
    requires WaitsFree(s) && WaitsItem(s) && Enabled(s, a) && !a.Go? && ItemsCovered(s, p) && RoomCovered(s, p)
    ensures ItemsCovered(Apply(s, a), p) && RoomCovered(Apply(s, a), p)
  {
    var r := Apply(s, a);
    if a.Spurious? {
      assert a.t in s.waitFree ==> |r.wokenFree| == |s.wokenFree| + 1;
      assert a.t !in s.waitFree ==> |r.wokenItem| == |s.wokenItem| + 1;
    }
  }

  lemma ProducerSignals(s: State, t: Tid, w: Tid)
    requires WaitsFree(s) && WaitsItem(s) && Enabled(s, Go(t, w)) && IsProducer(s.pc[t])
    requires ItemsCovered(s, Doing(s.pc[t])) && RoomCovered(s, Doing(s.pc[t]))
    requires s.pc[t].PCount? ==> s.ring.used < s.ring.size
    ensures var r := GoProducer(s, t, w); ItemsCovered(r, Doing(r.pc[t])) && RoomCovered(r, Doing(r.pc[t]))
  {
    var r := GoProducer(s, t, w);
    match s.pc[t]
    case PSignal =>
      if s.waitItem != {} { assert |r.wokenItem| == |s.wokenItem| + 1; }
    case PCount(_) => assert |r.wokenFree| >= |s.wokenFree| - 1;
    case PTest(_) =>
    case _ =>
  }

  lemma ConsumerCoversItems(s: State, t: Tid, w: Tid)
    requires WaitsItem(s) && Enabled(s, Go(t, w)) && !IsProducer(s.pc[t])
    requires ItemsCovered(s, Doing(s.pc[t])) && (s.pc[t].CCount? ==> s.ring.used > 0)
    ensures var r := GoConsumer(s, t, w); ItemsCovered(r, Doing(r.pc[t]))
  {
    if s.pc[t].CCount? { assert |GoConsumer(s, t, w).wokenItem| >= |s.wokenItem| - 1; }
  }

  lemma ConsumerCoversRoom(s: State, t: Tid, w: Tid)
    requires WaitsFree(s) && Enabled(s, Go(t, w)) && !IsProducer(s.pc[t])
    requires RoomCovered(s, Doing(s.pc[t])) && (s.pc[t].CCount? ==> s.ring.used > 0)
    ensures var r := GoConsumer(s, t, w); RoomCovered(r, Doing(r.pc[t]))
  {
    if s.pc[t].CSignal? && s.waitFree != {} { assert |GoConsumer(s, t, w).wokenFree| == |s.wokenFree| + 1; }
  }

  /** The ring steps of push, from the test that found room to the count. */
  lemma PushSteps(r: Ring, fd: int)
    requires InBounds(r)
    ensures RingPhase(r, PStore(fd)) ==>
      && r.rear < |r.fd| && InBounds(Store(r, fd)) && RingPhase(Store(r, fd), PAdvance(fd))
      && Queue(Store(r, fd), PAdvance(fd)) == Queue(r, PStore(fd))
    ensures RingPhase(r, PAdvance(fd)) ==>
      var q := r.(rear := Wrap(r.rear, r.size));
      && InBounds(q) && RingPhase(q, PCount(fd)) && Queue(q, PCount(fd)) == Queue(r, PAdvance(fd))
    ensures RingPhase(r, PCount(fd)) ==>
      var q := r.(used := r.used + 1);
      && InBounds(q) && RingPhase(q, PSignal) && Queue(q, PSignal) == Queue(r, PCount(fd)) + [fd]
  {
  }

  /** The ring steps of pop, from the load to the count. */
  lemma LoadStep(r: Ring)
    requires InBounds(r) && RingPhase(r, CLoad)
    ensures r.front < |r.fd| && RingPhase(r, CAdvance(Load(r)))
    ensures Queue(r, CAdvance(Load(r))) == Queue(r, CLoad)
  {
  }

  lemma AdvanceFrontStep(r: Ring, fd: int)
    requires InBounds(r) && RingPhase(r, CAdvance(fd))
    ensures var q := r.(front := Wrap(r.front, r.size));
      InBounds(q) && RingPhase(q, CCount(fd)) && Queue(q, CCount(fd)) == Queue(r, CAdvance(fd))
  {
    var f := Wrap(r.front, r.size);
    var all, tail := Slots(r.fd, r.front, r.used), Slots(r.fd, f, r.used - 1);
    assert all[0] == fd;
    forall k | 0 <= k < r.used - 1 ensures tail[k] == all[k + 1] { IndexNext(r.front, k, r.size); }
    assert all == [fd] + tail;
    IndexNext(r.front, r.used - 1, r.size);
  }

  /** Counting from the next index. */
  lemma IndexNext(front: nat, k: nat, size: nat)
    requires front < size && k < size
    ensures Index(Wrap(front, size), k, size) == Index(front, k + 1, size)
  {
  }

  lemma CountDownStep(r: Ring, fd: int)
    requires InBounds(r) && RingPhase(r, CCount(fd))
    ensures var q := r.(used := r.used - 1);
      InBounds(q) && RingPhase(q, CSignal(fd)) && Queue(r, CCount(fd)) == [fd] + Queue(q, CSignal(fd))
  {
  }

  /** What the queue stands for between any two steps. */
  function Contents(s: State): seq<int>
    requires Mutex(s) && Fifo(s)
  {
    Queue(s.ring, Holder(s))
  }

  /** The step on an atomic bounded FIFO: a push takes effect where `used` is
      counted up, a pop where it is counted down, and no other step does anything. */
  predicate AtomicStep(s: State, a: Action, r: State)
    requires Enabled(s, a) && Mutex(s) && Fifo(s) && Mutex(r) && Fifo(r)
  {
    if a.Go? && s.pc[a.t].PCount? then
      && |Contents(s)| < s.ring.size && Contents(r) == Contents(s) + [s.pc[a.t].fd]
      && r.pushed == s.pushed + [s.pc[a.t].fd] && r.popped == s.popped
    else if a.Go? && s.pc[a.t].CCount? then
      && Contents(s) == [s.pc[a.t].fd] + Contents(r)
      && r.pushed == s.pushed && r.popped == s.popped + [(a.t, s.pc[a.t].fd)]
    else
      Contents(r) == Contents(s) && r.pushed == s.pushed && r.popped == s.popped
  }

  /** RingPhase and the queue after a step, given what the lock holder does then. */
  predicate RingStep(s: State, a: Action, p: PC, q: PC)
    requires Enabled(s, a) && InBounds(s.ring) && RingPhase(s.ring, p)
  {
    var r := Apply(s, a).ring;
    && InBounds(r) && RingPhase(r, q)
    && (if a.Go? && s.pc[a.t].PCount? then
          |Queue(s.ring, p)| < s.ring.size && Queue(r, q) == Queue(s.ring, p) + [s.pc[a.t].fd]
        else if a.Go? && s.pc[a.t].CCount? then Queue(s.ring, p) == [s.pc[a.t].fd] + Queue(r, q)
        else Queue(r, q) == Queue(s.ring, p))
  }

  lemma ProducerRing(s: State, t: Tid, w: Tid)
    requires Enabled(s, Go(t, w)) && IsProducer(s.pc[t])
    requires InBounds(s.ring) && RingPhase(s.ring, Doing(s.pc[t]))
    ensures RingStep(s, Go(t, w), Doing(s.pc[t]), Doing(Apply(s, Go(t, w)).pc[t]))
  {
    match s.pc[t]
    case PStore(fd) => PushSteps(s.ring, fd);
    case PAdvance(fd) => PushSteps(s.ring, fd);
    case PCount(fd) => PushSteps(s.ring, fd);
    case _ =>
  }

  lemma ConsumerRing(s: State, t: Tid, w: Tid)
    requires Enabled(s, Go(t, w)) && !IsProducer(s.pc[t])
    requires InBounds(s.ring) && RingPhase(s.ring, Doing(s.pc[t]))
    ensures RingStep(s, Go(t, w), Doing(s.pc[t]), Doing(Apply(s, Go(t, w)).pc[t]))
  {
    match s.pc[t]
    case CLoad => LoadStep(s.ring);
    case CAdvance(fd) => AdvanceFrontStep(s.ring, fd);
    case CCount(fd) => CountDownStep(s.ring, fd);
    case _ =>
  }

  lemma StepRing(s: State, a: Action)
    requires Mutex(s) && Fifo(s) && Enabled(s, a)
    ensures Mutex(Apply(s, a)) && RingStep(s, a, Holder(s), Holder(Apply(s, a)))
  {
    StepHolder(s, a);
    if a.Go? {
      if IsProducer(s.pc[a.t]) { ProducerRing(s, a.t, a.w); } else { ConsumerRing(s, a.t, a.w); }
    }
  }

  lemma StepHistory(s: State, a: Action)
    requires Enabled(s, a)
    ensures var r := Apply(s, a);
      && r.pushed == (if a.Go? && s.pc[a.t].PCount? then s.pushed + [s.pc[a.t].fd] else s.pushed)
      && r.popped == (if a.Go? && s.pc[a.t].CCount? then s.popped + [(a.t, s.pc[a.t].fd)] else s.popped)
      && r.accepted == (if a.Accept? then s.accepted + [a.fd] else s.accepted)
  {
  }

  lemma FdsAppend(popped: seq<(Tid, int)>, t: Tid, fd: int)
    ensures Fds(popped + [(t, fd)]) == Fds(popped) + [fd]
  {
  }

  /** The fine-grained steps refine the atomic queue. */
  lemma StepSimulates(s: State, a: Action)
    requires Mutex(s) && Fifo(s) && Enabled(s, a)
    ensures Mutex(Apply(s, a)) && Fifo(Apply(s, a)) && AtomicStep(s, a, Apply(s, a))
  {
    StepRing(s, a);
    StepHistory(s, a);
    var r := Apply(s, a);
    var q, q', f := Contents(s), Queue(r.ring, Holder(r)), Fds(s.popped);
    if a.Go? && s.pc[a.t].PCount? {
      AppendAssoc(f, q, [s.pc[a.t].fd]);
      assert r.pushed == f + q';
    } else if a.Go? && s.pc[a.t].CCount? {
      assert Fds(r.popped) == f + [s.pc[a.t].fd] by { FdsAppend(s.popped, a.t, s.pc[a.t].fd); }
      AppendAssoc(f, [s.pc[a.t].fd], q');
      assert r.pushed == f + [s.pc[a.t].fd] + q';
    } else {
      assert r.pushed == f + q';
    }
  }

  lemma StepServing(s: State, a: Action)
    requires Serving(s) && Enabled(s, a)
    ensures Serving(Apply(s, a))
  {
    var r := Apply(s, a);
    StepMovesOne(s, a);
    StepHistory(s, a);
    forall t | 0 <= t < |r.pc| && (r.pc[t].CSignal? || r.pc[t].CUnlock? || r.pc[t].CServe?)
      ensures Latest(r.popped, t) == Some(r.pc[t].fd)
    {
      if a.Go? && s.pc[a.t].CCount? { LatestAppend(s.popped, a.t, s.pc[a.t].fd, t); }
      if t == a.t { ServesOwn(s, a); }
    }
  }

  lemma LatestAppend(popped: seq<(Tid, int)>, u: Tid, fd: int, t: Tid)
    ensures Latest(popped + [(u, fd)], t) == if u == t then Some(fd) else Latest(popped, t)
  {
    assert (popped + [(u, fd)])[..|popped|] == popped;
  }

  /** A worker that signals, unlocks or serves has just counted, or did so before. */
  lemma ServesOwn(s: State, a: Action)
    requires Enabled(s, a)
    ensures var p, q := s.pc[a.t], Apply(s, a).pc[a.t];
      q.CSignal? || q.CUnlock? || q.CServe? ==>
        if a.Go? && p.CCount? then q.fd == p.fd else (p.CSignal? || p.CUnlock? || p.CServe?) && q.fd == p.fd
  {
  }

  lemma {:induction false} HeldUpdate(pc: seq<PC>, t: nat, p: PC, fd: int)
    requires t < |pc|
    ensures Held(pc[t := p], fd) + InHand(pc[t], fd) == Held(pc, fd) + InHand(p, fd)
  {
    var n := |pc| - 1;
    if t < n {
      HeldUpdate(pc[..n], t, p, fd);
      assert pc[t := p][..n] == pc[..n][t := p];
    } else {
      assert pc[t := p][..n] == pc[..n];
    }
  }

  /** One thread moves at a time. */
  lemma StepMovesOne(s: State, a: Action)
    requires Enabled(s, a)
    ensures |Apply(s, a).pc| == |s.pc| && Apply(s, a).pc == s.pc[a.t := Apply(s, a).pc[a.t]]
  {
  }

  /** A thread keeps what it holds, unless it accepts or counts. */
  lemma StepHands(s: State, a: Action, fd: int)
    requires Enabled(s, a)
    ensures var r := Apply(s, a);
      && a.t < |r.pc|
      && InHand(r.pc[a.t], fd) - InHand(s.pc[a.t], fd) ==
           (if a.Accept? && a.fd == fd then 1 else 0) - (if a.Go? && s.pc[a.t] == PCount(fd) then 1 else 0)
  {
  }

  lemma TimesAppend(q: seq<int>, x: int, fd: int)
    ensures Times(q + [x], fd) == Times(q, fd) + if x == fd then 1 else 0
  {
  }

  /** Acceptance, counting and every other step keep the account. */
  lemma StepAccounted(s: State, a: Action)
    requires Enabled(s, a) && Accounted(s)
    ensures Accounted(Apply(s, a))
  {
    var r := Apply(s, a);
    forall fd ensures Times(r.accepted, fd) == Times(r.pushed, fd) + Held(r.pc, fd) {
      StepAccountedFor(s, a, fd);
    }
  }

  lemma StepAccountedFor(s: State, a: Action, fd: int)
    requires Enabled(s, a) && Times(s.accepted, fd) == Times(s.pushed, fd) + Held(s.pc, fd)
    ensures var r := Apply(s, a); Times(r.accepted, fd) == Times(r.pushed, fd) + Held(r.pc, fd)
  {
    var r := Apply(s, a);
    assert Times(r.accepted, fd) == Times(s.accepted, fd) + (if a.Accept? && a.fd == fd then 1 else 0) by {
      StepHistory(s, a);
      if a.Accept? { TimesAppend(s.accepted, a.fd, fd); }
    }
    assert Times(r.pushed, fd) == Times(s.pushed, fd) + (if a.Go? && s.pc[a.t] == PCount(fd) then 1 else 0) by {
      StepHistory(s, a);
      if a.Go? && s.pc[a.t].PCount? { TimesAppend(s.pushed, s.pc[a.t].fd, fd); }
    }
    StepMovesOne(s, a);
    StepHands(s, a, fd);
    HeldUpdate(s.pc, a.t, r.pc[a.t], fd);
  }

  lemma StepInv(s: State, a: Action)
    requires Inv(s) && Enabled(s, a)
    ensures Inv(Apply(s, a)) && AtomicStep(s, a, Apply(s, a))
  {
    StepMutex(s, a);
    StepWaitsFree(s, a);
    StepWaitsItem(s, a);
    StepNoLostWakeup(s, a);
    StepSimulates(s, a);
    StepServing(s, a);
    StepAccounted(s, a);
  }

  // ---- whole runs ----

  predicate ValidRun(s: State, run: seq<Action>)
    decreases |run|
  {
    run == [] || (Enabled(s, run[0]) && ValidRun(Apply(s, run[0]), run[1..]))
  }

  function After(s: State, run: seq<Action>): State
    requires ValidRun(s, run)
    decreases |run|
  {
    if run == [] then s else After(Apply(s, run[0]), run[1..])
  }

  lemma StepSizes(s: State, a: Action)
    requires Enabled(s, a)
    ensures |Apply(s, a).pc| == |s.pc| && Apply(s, a).ring.size == s.ring.size
  {
  }

  lemma {:induction false} RunInv(s: State, run: seq<Action>)
    requires Inv(s) && ValidRun(s, run)
    ensures Inv(After(s, run)) && |After(s, run).pc| == |s.pc| && After(s, run).ring.size == s.ring.size
    decreases |run|
  {
    if run != [] {
      var r := Apply(s, run[0]);
      assert Inv(r) by { StepInv(s, run[0]); }
      assert |r.pc| == |s.pc| && r.ring.size == s.ring.size by { StepSizes(s, run[0]); }
      RunInv(r, run[1..]);
    }
  }

  /** One thread at most is between lock and unlock. */
  predicate Exclusive(r: State) {
    forall t, u :: 0 <= t < u < |r.pc| ==> !(Critical(r.pc[t]) && Critical(r.pc[u]))
  }

  /** What was taken is, in order, what was put in first. */
  predicate InOrder(r: State) {
    forall j :: 0 <= j < |r.popped| ==> j < |r.pushed| && r.popped[j].1 == r.pushed[j]
  }

  /** Every accepted descriptor has been taken, is in the queue q or in its producer's
      hand, as many times as it was accepted. */
  ghost predicate Conserved(r: State, q: seq<int>) {
    forall fd :: Times(r.accepted, fd) == Times(Fds(r.popped), fd) + Times(q, fd) + Held(r.pc, fd)
  }

  lemma MutexExcludes(r: State)
    requires Mutex(r)
    ensures Exclusive(r)
  {
  }

  lemma FifoOrder(r: State)
    requires Mutex(r) && Fifo(r)
    ensures InOrder(r)
    ensures r.owner.None? && r.ring.size > 0 ==> r.ring.rear == (r.ring.front + r.ring.used) % r.ring.size
  {
    if r.ring.size > 0 { IndexIsMod(r.ring.front, r.ring.used, r.ring.size); }
    forall j | 0 <= j < |r.popped| ensures j < |r.pushed| && r.popped[j].1 == r.pushed[j] {
      assert r.pushed[j] == Fds(r.popped)[j];
    }
  }

  lemma TimesConcat(p: seq<int>, q: seq<int>, fd: int)
    ensures Times(p + q, fd) == Times(p, fd) + Times(q, fd)
  {
  }

  lemma AccountedConserves(r: State, q: seq<int>)
    requires Accounted(r) && r.pushed == Fds(r.popped) + q
    ensures Conserved(r, q)
  {
    forall fd ensures Times(r.accepted, fd) == Times(Fds(r.popped), fd) + Times(q, fd) + Held(r.pc, fd) {
      TimesConcat(Fds(r.popped), q, fd);
    }
  }

  /** One thread at most is between lock and unlock; what was taken is, in order, what
      was put in first; the rest is in the ring, which never holds more than `size`;
      every accepted descriptor was taken, is in the ring or in its producer's hand;
      and every worker handles the descriptor of its own latest removal. */
  ghost predicate Safe(r: State, size: nat) {
    && Mutex(r) && Fifo(r) && Exclusive(r) && InOrder(r) && Conserved(r, Contents(r))
    && Fds(r.popped) + Contents(r) == r.pushed && |Contents(r)| == r.ring.used <= size
    && (r.owner.None? && size > 0 ==> r.ring.rear == (r.ring.front + r.ring.used) % size)
    && (forall t :: 0 <= t < |r.pc| && r.pc[t].CServe? ==> Latest(r.popped, t) == Some(r.pc[t].fd))
  }

  lemma InvSafe(r: State)
    requires Inv(r)
    ensures Safe(r, r.ring.size)
  {
    MutexExcludes(r);
    FifoOrder(r);
    AccountedConserves(r, Contents(r));
  }

  /** Every reachable state is safe, for any number of threads. */
  lemma QueueSafety(s: State, size: nat, run: seq<Action>)
    requires Init(s, size) && ValidRun(s, run)
    ensures Inv(After(s, run)) && Safe(After(s, run), size)
  {
    InitInv(s, size);
    RunInv(s, run);
    InvSafe(After(s, run));
  }

  /** No lost wakeup, in every reachable state and with any spurious wakeups. */
  lemma WakeupsNeverLost(s: State, size: nat, run: seq<Action>)
    requires Init(s, size) && ValidRun(s, run)
    ensures var r := After(s, run);
      && Mutex(r)
      && (r.waitItem != {} ==> r.ring.used <= |r.wokenItem| + (if Holder(r).PSignal? then 1 else 0))
      && (r.waitFree != {} ==> size - r.ring.used <= |r.wokenFree| + (if Holder(r).CSignal? then 1 else 0))
  {
    InitInv(s, size);
    RunInv(s, run);
  }

  predicate Blocked(s: State, t: Tid) { t in s.waitFree || t in s.waitItem }

  /** With room for one entry, a producer and a consumer, there is always a thread
      that is not blocked, and a step other than a spurious wakeup. */
  lemma NeverAllBlocked(s: State, p: Tid, c: Tid)
    requires Inv(s) && s.ring.size > 0
    requires p < |s.pc| && c < |s.pc| && IsProducer(s.pc[p]) && !IsProducer(s.pc[c])
    ensures exists t :: 0 <= t < |s.pc| && !Blocked(s, t)
    ensures exists a :: Enabled(s, a) && !a.Spurious?
  {
    if s.owner.Some? {
      HolderCanGo(s);
      assert !Blocked(s, s.owner.value);
    } else if !Blocked(s, p) {
      var a := if s.pc[p].PIdle? then Accept(p, 0) else Go(p, 0);
      assert Enabled(s, a);
    } else if !Blocked(s, c) {
      var a := if s.pc[c].CServe? then Done(c) else Go(c, 0);
      assert Enabled(s, a);
    } else if t :| t in s.wokenFree {
      assert Enabled(s, Go(t, 0)) && !Blocked(s, t);
    } else if t :| t in s.wokenItem {
      assert Enabled(s, Go(t, 0)) && !Blocked(s, t);
    }
  }

  /** A waiter may wake for no reason at any time; it then comes back with the lock, as
      soon as that is free, and tests again. */
  lemma SpuriousTestsAgain(s: State, t: Tid)
    requires Inv(s) && Blocked(s, t)
    ensures Enabled(s, Spurious(t)) && t < |s.pc|
    ensures var r := Apply(s, Spurious(t));
      && !Blocked(r, t) && r.pc == s.pc && r.owner == s.owner && r.ring == s.ring
      && (r.owner.None? ==>
           && Enabled(r, Go(t, t))
           && var q := Apply(r, Go(t, t));
              && q.owner == Some(t) && q.ring == s.ring && t < |q.pc|
              && q.pc[t] == if s.pc[t].PWait? then PTest(s.pc[t].fd) else CTest)
  {
  }

  /** The lock holder always has a next step. */
  lemma HolderCanGo(s: State)
    requires Inv(s) && s.owner.Some?
    ensures exists w :: Enabled(s, Go(s.owner.value, w))
  {
    var t := s.owner.value;
    var w :| (if s.pc[t].PSignal? then s.waitItem == {} || w in s.waitItem else s.waitFree == {} || w in s.waitFree);
    assert Enabled(s, Go(t, w));
  }

  // ---- every worker comes back ----

  /** Removals by thread t. */
  function TakenBy(popped: seq<(Tid, int)>, t: Tid): nat {
    if popped == [] then 0
    else TakenBy(popped[..|popped| - 1], t) + if popped[|popped| - 1].0 == t then 1 else 0
  }

  /** Connections that thread t has finished in a run. */
  function Finished(run: seq<Action>, t: Tid): nat {
    if run == [] then 0 else (if run[0] == Done(t) then 1 else 0) + Finished(run[1..], t)
  }

  /** Between a removal and the end of its connection. */
  function InService(p: PC): nat { if p.CSignal? || p.CUnlock? || p.CServe? then 1 else 0 }

  lemma TakenAppend(popped: seq<(Tid, int)>, u: Tid, fd: int, t: Tid)
    ensures TakenBy(popped + [(u, fd)], t) == TakenBy(popped, t) + if u == t then 1 else 0
  {
    assert (popped + [(u, fd)])[..|popped|] == popped;
  }

  /** A removal begins a service, and the end of the connection ends it. */
  lemma OwnService(s: State, a: Action)
    requires Enabled(s, a)
    ensures a.t < |s.pc| == |Apply(s, a).pc|
    ensures InService(Apply(s, a).pc[a.t]) - InService(s.pc[a.t]) ==
      (if IsPop(s, a) then 1 else 0) - (if a.Done? then 1 else 0)
  {
  }

  lemma StepService(s: State, a: Action, t: Tid)
    requires Enabled(s, a) && t < |s.pc|
    ensures var r := Apply(s, a);
      && |r.pc| == |s.pc|
      && TakenBy(r.popped, t) - InService(r.pc[t]) + (if a == Done(t) then -1 else 0) ==
         TakenBy(s.popped, t) - InService(s.pc[t])
  {
    StepMovesOne(s, a);
    StepHistory(s, a);
    OwnService(s, a);
    if IsPop(s, a) { TakenAppend(s.popped, a.t, s.pc[a.t].fd, t); }
  }

  lemma {:induction false} RunService(s: State, run: seq<Action>, t: Tid)
    requires ValidRun(s, run) && t < |s.pc|
    ensures var r := After(s, run);
      && |r.pc| == |s.pc|
      && TakenBy(r.popped, t) - InService(r.pc[t]) == TakenBy(s.popped, t) - InService(s.pc[t]) + Finished(run, t)
    decreases |run|
  {
    if run != [] {
      StepService(s, run[0], t);
      RunService(Apply(s, run[0]), run[1..], t);
    }
  }

  /** In every run, a worker has finished each connection it has taken but the one it
      is handling now. */
  lemma WorkersFinish(s: State, size: nat, run: seq<Action>, t: Tid)
    requires Init(s, size) && ValidRun(s, run) && t < |s.pc|
    ensures var r := After(s, run);
      && |r.pc| == |s.pc|
      && TakenBy(r.popped, t) == Finished(run, t) + InService(r.pc[t])
  {
    RunService(s, run, t);
  }

  // ---- progress ----

  predicate IsPop(s: State, a: Action)
    requires Enabled(s, a)
  {
    a.Go? && s.pc[a.t].CCount?
  }

  /** Steps that a thread has left inside push or pop, a signal counting for the
      steps of the thread it may wake. */
  function Weight(p: PC, woken: bool): nat {
    match p
    case PLock(_) => 12
    case PWait(_) => if woken then 12 else 0
    case PTest(_) => 11
    case PStore(_) => 10
    case PAdvance(_) => 9
    case PCount(_) => 8
    case PSignal => 7
    case PUnlock => 1
    case CLock => 5
    case CWait => if woken then 5 else 0
    case CTest => 4
    case CLoad => 3
    case CAdvance(_) => 2
    case CCount(_) => 1
    case CSignal(_) => 14
    case CUnlock(_) => 1
    case PIdle => 0
    case CServe(_) => 0
  }

  function Weights(s: State): seq<nat> {
    seq(|s.pc|, t requires 0 <= t < |s.pc| => Weight(s.pc[t], t in s.wokenFree || t in s.wokenItem))
  }

  function Sum(ws: seq<nat>): nat {
    if ws == [] then 0 else Sum(ws[..|ws| - 1]) + ws[|ws| - 1]
  }

  function Rank(s: State): nat { Sum(Weights(s)) }

  lemma {:induction false} SumUpdate(ws: seq<nat>, t: nat, x: nat)
    requires t < |ws|
    ensures Sum(ws[t := x]) + ws[t] == Sum(ws) + x
  {
    var n := |ws| - 1;
    if t < n {
      SumUpdate(ws[..n], t, x);
      assert ws[t := x][..n] == ws[..n][t := x];
    } else {
      assert ws[t := x][..n] == ws[..n];
    }
  }

  predicate Wakes(s: State, a: Action)
    requires Enabled(s, a)
  {
    a.Go? && ((s.pc[a.t].PSignal? && s.waitItem != {}) || (s.pc[a.t].CSignal? && s.waitFree != {}))
  }

  /** A thread other than t keeps its place and its standing. */
  lemma OthersKeep(s: State, a: Action, u: Tid)
    requires WaitsFree(s) && WaitsItem(s) && Enabled(s, a) && a.Go? && !Wakes(s, a) && u < |s.pc| && u != a.t
    ensures var r := Apply(s, a);
      && |r.pc| == |s.pc| && r.pc[u] == s.pc[u]
      && (u in r.wokenFree <==> u in s.wokenFree) && (u in r.wokenItem <==> u in s.wokenItem)
  {
  }

  lemma PlainWeights(s: State, a: Action)
    requires WaitsFree(s) && WaitsItem(s) && Enabled(s, a) && a.Go? && !IsPop(s, a) && !Wakes(s, a)
    ensures var ws, vs := Weights(s), Weights(Apply(s, a));
      vs[a.t] < ws[a.t] && vs == ws[a.t := vs[a.t]]
  {
    var ws, vs := Weights(s), Weights(Apply(s, a));
    forall u | 0 <= u < |ws| && u != a.t ensures vs[u] == ws[u] { OthersKeep(s, a, u); }
    OwnWeightDrops(s, a);
  }

  lemma OwnWeightDrops(s: State, a: Action)
    requires WaitsFree(s) && WaitsItem(s) && Enabled(s, a) && a.Go? && !IsPop(s, a) && !Wakes(s, a)
    ensures var r := Apply(s, a);
      && |r.pc| == |s.pc|
      && Weight(r.pc[a.t], a.t in r.wokenFree || a.t in r.wokenItem)
         < Weight(s.pc[a.t], a.t in s.wokenFree || a.t in s.wokenItem)
  {
  }

  lemma WakingWeights(s: State, a: Action)
    requires WaitsFree(s) && WaitsItem(s) && Enabled(s, a) && Wakes(s, a)
    ensures a.w < |s.pc| && a.w != a.t
    ensures var ws, vs := Weights(s), Weights(Apply(s, a));
      vs[a.t] + vs[a.w] < ws[a.t] + ws[a.w] && vs == ws[a.t := vs[a.t]][a.w := vs[a.w]]
  {
    var ws, vs := Weights(s), Weights(Apply(s, a));
    forall u | 0 <= u < |ws| && u != a.t && u != a.w ensures vs[u] == ws[u] {
      assert Apply(s, a).pc[u] == s.pc[u];
    }
  }

  /** Every step inside push or pop but the removal itself lowers the rank. */
  lemma RankDrops(s: State, a: Action)
    requires WaitsFree(s) && WaitsItem(s) && Enabled(s, a) && a.Go? && !IsPop(s, a)
    ensures Rank(Apply(s, a)) < Rank(s)
  {
    var ws, vs := Weights(s), Weights(Apply(s, a));
    SumUpdate(ws, a.t, vs[a.t]);
    if Wakes(s, a) {
      WakingWeights(s, a);
      SumUpdate(ws[a.t := vs[a.t]], a.w, vs[a.w]);
    } else {
      PlainWeights(s, a);
    }
  }

  /** A run without a removal. */
  predicate Popless(s: State, run: seq<Action>)
    requires ValidRun(s, run)
    decreases |run|
  {
    run == [] || (!IsPop(s, run[0]) && Popless(Apply(s, run[0]), run[1..]))
  }

  /** Its steps inside push and pop; the others are Accept, Done and spurious wakeups. */
  function Gos(run: seq<Action>): (n: nat)
    ensures n <= |run|
  {
    if run == [] then 0 else (if run[0].Go? then 1 else 0) + Gos(run[1..])
  }

  /** What comes from outside push and pop gives one thread at most the steps of one
      more push or pop. */
  lemma OutsideRaises(s: State, a: Action)
    requires WaitsFree(s) && WaitsItem(s) && Enabled(s, a) && !a.Go?
    ensures Rank(Apply(s, a)) <= Rank(s) + 12
  {
    var ws, vs := Weights(s), Weights(Apply(s, a));
    StepSizes(s, a);
    forall u | 0 <= u < |ws| && u != a.t ensures vs[u] == ws[u] { OutsideKeeps(s, a, u); }
    assert vs == ws[a.t := vs[a.t]];
    SumUpdate(ws, a.t, vs[a.t]);
    WeightBounded(s, a);
  }

  lemma OutsideKeeps(s: State, a: Action, u: Tid)
    requires Enabled(s, a) && !a.Go? && u < |s.pc| && u != a.t
    ensures var r := Apply(s, a);
      && |r.pc| == |s.pc| && r.pc[u] == s.pc[u]
      && (u in r.wokenFree <==> u in s.wokenFree) && (u in r.wokenItem <==> u in s.wokenItem)
  {
  }

  lemma WeightBounded(s: State, a: Action)
    requires WaitsFree(s) && WaitsItem(s) && Enabled(s, a) && !a.Go?
    ensures var r := Apply(s, a);
      a.t < |r.pc| && Weight(r.pc[a.t], a.t in r.wokenFree || a.t in r.wokenItem) <= 12
  {
  }

  /** Some worker has not been handed a connection. */
  predicate WorkerFree(s: State) {
    exists t :: 0 <= t < |s.pc| && !IsProducer(s.pc[t]) && !s.pc[t].CServe? && !s.pc[t].CSignal? && !s.pc[t].CUnlock?
  }

  lemma {:induction false} PoplessBounded(s: State, run: seq<Action>)
    requires Inv(s) && ValidRun(s, run) && Popless(s, run)
    ensures Gos(run) + Rank(After(s, run)) <= Rank(s) + 12 * (|run| - Gos(run))
    ensures After(s, run).ring.used >= s.ring.used
    ensures WorkerFree(s) ==> WorkerFree(After(s, run))
    decreases |run|
  {
    if run != [] {
      if run[0].Go? { RankDrops(s, run[0]); } else { OutsideRaises(s, run[0]); }
      StepInv(s, run[0]);
      UsedStays(s, run[0]);
      if WorkerFree(s) { WorkerStays(s, run[0]); }
      PoplessBounded(Apply(s, run[0]), run[1..]);
    }
  }

  lemma UsedStays(s: State, a: Action)
    requires Enabled(s, a) && !IsPop(s, a)
    ensures Apply(s, a).ring.used >= s.ring.used
  {
  }

  lemma WorkerStays(s: State, a: Action)
    requires Mutex(s) && Enabled(s, a) && !IsPop(s, a) && WorkerFree(s)
    ensures WorkerFree(Apply(s, a))
  {
    var t :| 0 <= t < |s.pc| && !IsProducer(s.pc[t]) && !s.pc[t].CServe? && !s.pc[t].CSignal? && !s.pc[t].CUnlock?;
    assert var p := Apply(s, a).pc[t]; !IsProducer(p) && !p.CServe? && !p.CSignal? && !p.CUnlock?;
  }

  /** With an item queued and a worker free, some thread can step inside push or
      pop: the wakeup that a waiting worker needs has been given or is about to be. */
  lemma GoEnabled(s: State)
    requires Inv(s) && s.ring.used > 0 && WorkerFree(s)
    ensures exists t, w :: Enabled(s, Go(t, w))
  {
    if s.owner.Some? {
      HolderCanGo(s);
    } else {
      var t :| 0 <= t < |s.pc| && !IsProducer(s.pc[t]) && !s.pc[t].CServe? && !s.pc[t].CSignal? && !s.pc[t].CUnlock?;
      assert !Critical(s.pc[t]);
      if t in s.waitItem {
        var u :| u in s.wokenItem;
        assert Enabled(s, Go(u, 0));
      } else {
        assert Enabled(s, Go(t, 0));
      }
    }
  }

  /** From every reachable state with an item queued and a worker free, and under any
      schedule: until the next removal a step inside push or pop is always possible,
      and of these there are at most Rank(s), and 12 more for each connection accepted
      or finished and each spurious wakeup in between. */
  lemma NextPop(s: State, run: seq<Action>)
    requires Inv(s) && s.ring.used > 0 && WorkerFree(s) && ValidRun(s, run) && Popless(s, run)
    ensures Gos(run) <= Rank(s) + 12 * (|run| - Gos(run))
    ensures exists t, w :: Enabled(After(s, run), Go(t, w))
  {
    PoplessBounded(s, run);
    RunInv(s, run);
    GoEnabled(After(s, run));
  }

  /** A worker whose connection has ended is free: if a descriptor is queued, a step
      inside push or pop is possible at once and until the next removal, and the bound
      of NextPop applies. */
  lemma WorkerReturns(s: State, t: Tid, run: seq<Action>)
    requires Inv(s) && Enabled(s, Done(t))
    ensures var r := Apply(s, Done(t));
      && Inv(r) && WorkerFree(r) && r.ring.used == s.ring.used && r.owner == s.owner
      && (r.ring.used > 0 && ValidRun(r, run) && Popless(r, run) ==>
           && Gos(run) <= Rank(r) + 12 * (|run| - Gos(run))
           && exists u, w :: Enabled(After(r, run), Go(u, w)))
  {
    var r := Apply(s, Done(t));
    StepInv(s, Done(t));
    assert r.pc[t] == CLock;
    if r.ring.used > 0 && ValidRun(r, run) && Popless(r, run) { NextPop(r, run); }
  }
}
