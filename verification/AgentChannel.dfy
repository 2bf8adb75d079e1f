/**
 One channel of `agent-client-manager.c` under every interleaving of requesters,
 the event loop and writer threads: the write queue, the lock that licenses its
 consumption, and the one-shot EPOLLOUT registration that wakes a writer.
 */
module AgentChannel {
  import opened Octets
  import opened Frames

  type Tid = nat

  /** Where a thread stands.  `Filling` holds the queue's spin lock. */
  datatype Pc =
    | Idle
    | Filling(wasEmpty: bool, m: Msg)  // acm_request: slot claimed, not yet written
    | Unlocking                        // acm_request: queue was empty, consume lock to be released
    | Arming                           // acm_epoll_mod is next
    | Starting                         // acm_io_write_thread, before its emptiness test
    | Writing                          // at the top of the loop of acm_io_write_thread
    | Sending                          // header written, the data is next
    | Dequeuing                        // head task written completely
    | Releasing                        // left the loop with tasks remaining
    | Failed                           // send error: the consume lock stays taken
    | Strayed                          // a data send began in front of its buffer

  /** The consume spin lock.  The owner is bookkeeping: the code only sees whether it is
      free.  `Parked` is the state in which an emptied queue leaves it. */
  datatype Lock = Unlocked | Parked | HeldBy(t: Tid)

  datatype Slot = Slot(m: Msg, writeIndex: int)

  datatype State = State(
    pc: map<Tid, Pc>,
    lock: Lock,
    filler: int,         // thread inside the queue's spin lock, or -1
    armed: bool,         // EPOLLOUT registered
    oneShot: bool,
    inHand: bool,        // the event loop has taken an EPOLLOUT event
    head: nat,
    tail: nat,
    ring: seq<Slot>,
    history: seq<Msg>,   // everything ever enqueued
    wire: seq<byte>,     // everything ever handed to send
    faults: nat,         // data sends that returned EAGAIN
    lost: int            // bytes that were still to send when their slot was filled again
  )

  datatype Outcome = Wrote(k: nat) | Again | Broken

  datatype Step =
    | Claim(t: Tid, m: Msg)
    | Fill(t: Tid)
    | Unlock(t: Tid)
    | Arm(t: Tid)
    | Fire
    | TryLock(t: Tid)
    | Start(t: Tid)
    | Send(t: Tid, outcome: Outcome)
    | Dequeue(t: Tid)
    | Release(t: Tid)

  function PcOf(s: State, t: Tid): Pc {
    if t in s.pc then s.pc[t] else Idle
  }

  predicate Empty(s: State) {
    s.head + 1 == s.tail
  }

  function Index(s: State): nat
    requires s.ring != []
  {
    (s.head + 1) % |s.ring|
  }

  /** After `acm_connect`: the lock is taken, EPOLLOUT registered without one-shot. */
  predicate Init(s: State) {
    && s.pc == map[] && s.lock == Parked && s.filler == -1
    && s.armed && !s.oneShot && !s.inHand
    && s.head == 0 && s.tail == 1 && s.ring != []
    && s.history == [] && s.wire == [] && s.faults == 0 && s.lost == 0
  }

  /** How many bytes of the current phase, header or data, are still to send. */
  function Wanted(c: Slot): int {
    if c.writeIndex < HEAD_SIZE then HEAD_SIZE - c.writeIndex
    else |c.m.data| + HEAD_SIZE - c.writeIndex
  }

  /** How many bytes of the request in a slot are still to send. */
  function Unsent(c: Slot): int {
    HEAD_SIZE + |c.m.data| - c.writeIndex
  }

  /** What the next fill writes over; a slot that was never used holds nothing. */
  function Overwritten(s: State): int
    requires s.ring != []
  {
    if s.tail - 1 <= |s.ring| then 0 else Unsent(s.ring[(s.tail - 1) % |s.ring|])
  }

  predicate Enabled(s: State, a: Step) {
    s.ring != [] &&
    match a
    case Claim(t, m) => PcOf(s, t) == Idle && s.filler == -1 && Sendable(m)
    case Fill(t) => PcOf(s, t).Filling? && s.filler == t
    case Unlock(t) => PcOf(s, t) == Unlocking
    case Arm(t) => PcOf(s, t) == Arming
    case Fire => s.armed && !s.inHand
    case TryLock(t) => s.inHand && PcOf(s, t) == Idle
    case Start(t) => PcOf(s, t) == Starting
    case Send(t, o) =>
      var c := s.ring[Index(s)];
      (PcOf(s, t) == Writing || PcOf(s, t) == Sending) && Sendable(c.m) && 0 <= c.writeIndex <= HEAD_SIZE + |c.m.data| &&
      (o.Wrote? ==> o.k <= Wanted(c))
    case Dequeue(t) => PcOf(s, t) == Dequeuing && s.filler == -1
    case Release(t) => PcOf(s, t) == Releasing
  }

  function Apply(s: State, a: Step): State
    requires Enabled(s, a)
  {
    match a
    case Claim(t, m) =>
      s.(pc := s.pc[t := Filling(Empty(s), m)], filler := t, tail := s.tail + 1, history := s.history + [m],
         lock := if Empty(s) && s.lock == Parked then HeldBy(t) else s.lock)
    case Fill(t) =>
      var p := PcOf(s, t);
      s.(pc := s.pc[t := if p.wasEmpty then Unlocking else Idle], filler := -1,
         lost := s.lost + Overwritten(s), ring := s.ring[(s.tail - 1) % |s.ring| := Slot(p.m, 0)])
    case Unlock(t) => s.(pc := s.pc[t := Arming], lock := Unlocked)
    case Arm(t) => s.(pc := s.pc[t := Idle], armed := true, oneShot := true)
    case Fire => s.(inHand := true, armed := s.armed && !s.oneShot)
    case TryLock(t) =>
      if s.lock == Unlocked then s.(pc := s.pc[t := Starting], lock := HeldBy(t), inHand := false)
      else s.(inHand := false)
    case Start(t) => s.(pc := s.pc[t := if Empty(s) then Failed else Writing])
    case Send(t, o) => ApplySend(s, t, o)
    case Dequeue(t) =>
      var s' := s.(head := s.head + 1);
      if Empty(s') then s'.(pc := s.pc[t := Idle], lock := if s.lock == HeldBy(t) then Parked else s.lock) else s'.(pc := s.pc[t := Writing])
    case Release(t) => s.(pc := s.pc[t := Arming], lock := Unlocked)
  }

  /** One `send` of the head task.  The data phase adds the -1 of an EAGAIN to
      `write_index`; the header phase does not.  If the slot was filled again after the
      header was written, the data is taken from in front of the buffer: what follows is
      not defined, and the thread goes no further here. */
  function ApplySend(s: State, t: Tid, o: Outcome): State
    requires Enabled(s, Send(t, o))
  {
    var c := s.ring[Index(s)];
    var inHeader := c.writeIndex < HEAD_SIZE;
    if PcOf(s, t) == Sending && inHeader then s.(pc := s.pc[t := Strayed]) else
    match o
    case Broken => s.(pc := s.pc[t := Failed])
    case Again =>
      if inHeader then s.(pc := s.pc[t := Releasing])
      else s.(pc := s.pc[t := Releasing], faults := s.faults + 1,
              ring := s.ring[Index(s) := c.(writeIndex := c.writeIndex - 1)])
    case Wrote(k) =>
      var done := k == Wanted(c);
      var pc := if !done then Releasing else if inHeader then Sending else Dequeuing;
      s.(pc := s.pc[t := pc], wire := s.wire + Frame(c.m)[c.writeIndex..c.writeIndex + k],
         ring := s.ring[Index(s) := c.(writeIndex := c.writeIndex + k)])
  }

  // ----- runs -----

  predicate Possible(s: State, run: seq<Step>)
    decreases |run|
  {
    run == [] || (Enabled(s, run[0]) && Possible(Apply(s, run[0]), run[1..]))
  }

  function After(s: State, run: seq<Step>): State
    requires Possible(s, run)
    decreases |run|
  {
    if run == [] then s else After(Apply(s, run[0]), run[1..])
  }

  // ----- the lock protocol -----

  /** A thread that has the licence to consume the queue, or is about to pass it on. */
  predicate Holder(p: Pc) {
    p.Unlocking? || p.Starting? || p.Writing? || p.Sending? || p.Dequeuing? || p.Releasing? || p.Failed?
    || p.Strayed? || (p.Filling? && p.wasEmpty)
  }

  /** An event is registered that has not fired yet, or is in the event loop's hand. */
  predicate Armed(s: State) {
    (s.armed && s.oneShot) || s.inHand
  }

  /** The registration of `acm_connect` does not count: it may have fired long ago. */
  ghost predicate WakeupComing(s: State) {
    Armed(s) || exists t :: t in s.pc && s.pc[t] == Arming
  }

  /** What every step keeps. */
  ghost predicate Inv(s: State) {
    && s.ring != [] && s.head < s.tail
    && s.filler >= -1
    && (forall t: Tid :: Holder(PcOf(s, t)) <==> s.lock == HeldBy(t))
    && (forall t: Tid :: PcOf(s, t).Filling? <==> s.filler == t)
    && (s.lock == Parked <==> Empty(s))
    && (s.lock == Unlocked ==> WakeupComing(s))
    && (s.filler >= 0 ==> !Empty(s) && (PcOf(s, s.filler).wasEmpty <==> s.tail == s.head + 2))
  }

  lemma InitInv(s: State)
    requires Init(s)
    ensures Inv(s)
  {
  }

  lemma StillComing(s: State, s': State, t: Tid)
    requires WakeupComing(s) && (Armed(s) ==> Armed(s'))
    requires forall u :: u in s.pc && u != t ==> u in s'.pc && s'.pc[u] == s.pc[u]
    requires PcOf(s, t) != Arming || PcOf(s', t) == Arming
    ensures WakeupComing(s')
  {
    if !Armed(s) {
      var u :| u in s.pc && s.pc[u] == Arming;
      assert u in s'.pc && s'.pc[u] == Arming;
    }
  }

  lemma RequestStepInv(s: State, a: Step)
    requires Inv(s) && Enabled(s, a) && (a.Claim? || a.Fill? || a.Unlock? || a.Arm?)
    ensures Inv(Apply(s, a))
  {
    var s' := Apply(s, a);
    match a
    case Claim(t, m) => if s'.lock == Unlocked { StillComing(s, s', t); }
    case Fill(t) => if s'.lock == Unlocked { StillComing(s, s', t); }
    case Unlock(t) => assert t in s'.pc && s'.pc[t] == Arming;
    case Arm(t) =>
  }

  lemma EventStepInv(s: State, a: Step)
    requires Inv(s) && Enabled(s, a) && (a.Fire? || a.TryLock? || a.Start?)
    ensures Inv(Apply(s, a))
    ensures a.Start? ==> PcOf(Apply(s, a), a.t) == Writing
  {
    if a.Start? { assert Holder(PcOf(s, a.t)); }
  }

  lemma WriterStepInv(s: State, a: Step)
    requires Inv(s) && Enabled(s, a) && (a.Dequeue? || a.Release?)
    ensures Inv(Apply(s, a))
  {
    var s' := Apply(s, a);
    assert Holder(PcOf(s, a.t));
    match a
    case Dequeue(t) =>
    case Release(t) => assert t in s'.pc && s'.pc[t] == Arming;
  }

  /** A send moves its thread on within the licence to consume and touches one slot. */
  lemma SendMoves(s: State, t: Tid, o: Outcome)
    requires Enabled(s, Send(t, o))
    ensures var s', p := ApplySend(s, t, o), PcOf(ApplySend(s, t, o), t);
      && s'.pc == s.pc[t := p] && Holder(p) && !p.Filling?
      && |s'.ring| == |s.ring| && s'.lock == s.lock && s'.filler == s.filler
      && (s'.head, s'.tail, s'.history, s'.lost) == (s.head, s.tail, s.history, s.lost)
  {
  }

  lemma HolderMoves(s: State, s': State, t: Tid)
    requires Inv(s) && Holder(PcOf(s, t)) && !PcOf(s, t).Filling?
    requires Holder(PcOf(s', t)) && !PcOf(s', t).Filling? && s'.pc == s.pc[t := PcOf(s', t)]
    requires |s'.ring| == |s.ring| && s'.lock == s.lock && s'.filler == s.filler && s'.head == s.head && s'.tail == s.tail
    ensures Inv(s')
  {
    assert forall u: Tid :: u != t ==> PcOf(s', u) == PcOf(s, u);
  }

  lemma SendStepInv(s: State, t: Tid, o: Outcome)
    requires Inv(s) && Enabled(s, Send(t, o))
    ensures Inv(ApplySend(s, t, o))
  {
    SendMoves(s, t, o);
    HolderMoves(s, ApplySend(s, t, o), t);
  }

  lemma StepInv(s: State, a: Step)
    requires Inv(s) && Enabled(s, a)
    ensures Inv(Apply(s, a))
  {
    if a.Claim? || a.Fill? || a.Unlock? || a.Arm? {
      RequestStepInv(s, a);
    } else if a.Fire? || a.TryLock? || a.Start? {
      EventStepInv(s, a);
    } else if a.Send? {
      SendStepInv(s, a.t, a.outcome);
    } else {
      WriterStepInv(s, a);
    }
  }

  lemma {:induction false} RunInv(s: State, run: seq<Step>)
    requires Inv(s) && Possible(s, run)
    ensures Inv(After(s, run))
    decreases |run|
  {
    if run != [] {
      StepInv(s, run[0]);
      RunInv(Apply(s, run[0]), run[1..]);
    }
  }

  predicate Consuming(p: Pc) {
    p.Starting? || p.Writing? || p.Sending? || p.Dequeuing? || p.Releasing?
  }

  /** In every reachable state at most one writer consumes the channel, it has
      something to consume, the emptiness test of a starting writer never fires, and
      a free lock over a non-empty queue means that a wakeup is on its way. */
  lemma Protocol(s: State, run: seq<Step>)
    requires Init(s) && Possible(s, run)
    ensures var z := After(s, run);
      && (forall t: Tid, u: Tid :: Consuming(PcOf(z, t)) && Consuming(PcOf(z, u)) ==> t == u)
      && (forall t: Tid :: Consuming(PcOf(z, t)) ==> !Empty(z) && z.lock == HeldBy(t))
      && (z.lock == Unlocked ==> !Empty(z) && WakeupComing(z))
      && (!Empty(z) ==> z.lock.HeldBy? || WakeupComing(z))
  {
    InitInv(s);
    RunInv(s, run);
    var z := After(s, run);
    forall t: Tid | Consuming(PcOf(z, t)) ensures !Empty(z) && z.lock == HeldBy(t) {
      assert Holder(PcOf(z, t));
    }
  }
}
